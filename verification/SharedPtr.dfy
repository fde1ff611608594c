/** `SharedPtr`: handles that share an object and count themselves in a cell next to it. */
module SharedPtrs {
  import opened Options

  /** The managed object, of which only its deletion matters here. */
  class Managed {
    ghost var freed: bool

    constructor ()
      ensures !freed
    {
      freed := false;
    }

    method Delete()
      requires !freed
      modifies this
      ensures freed
    {
      freed := true;
    }
  }

  /** The count cell. `owned` is the object it was made for. */
  class Counter {
    var n: int
    ghost const owned: Managed?
    ghost var freed: bool

    constructor (ghost owned: Managed?)
      ensures n == 1 && this.owned == owned && !freed
    {
      n := 1;
      this.owned := owned;
      freed := false;
    }

    method Delete()
      requires !freed
      modifies this`freed
      ensures freed
    {
      freed := true;
    }
  }

  /** The live handles on a cell. */
  ghost function Owners(handles: set<SharedPtr>, c: Counter): set<SharedPtr>
    reads handles
  {
    set h | h in handles && h.count == c
  }

  ghost function Objects(counters: set<Counter>): set<Managed> {
    set c | c in counters && c.owned != null :: c.owned
  }

  /** The live handles and all cells ever made agree: a cell counts the live handles on it, and
      the cell and its object have been freed when there is none, and only then. */
  ghost predicate Consistent(handles: set<SharedPtr>, counters: set<Counter>)
    reads handles, counters, Objects(counters)
  {
    && (forall h :: h in handles ==>
          if h.count == null then h.data == null else h.count in counters && h.data == h.count.owned)
    && (forall c :: c in counters ==> CellRight(handles, c))
    && (forall c, d :: c in counters && d in counters && c.owned == d.owned != null ==> c == d)
  }

  ghost predicate CellRight(handles: set<SharedPtr>, c: Counter)
    reads handles, c, c.owned
  {
    && c.n == |Owners(handles, c)|
    && c.freed == (Owners(handles, c) == {})
    && (c.owned != null ==> c.owned.freed == c.freed)
  }

  /** A handle on nothing may come and go. */
  lemma NullHandleIsConsistent(handles: set<SharedPtr>, counters: set<Counter>, h: SharedPtr)
    requires h.count == null && h.data == null && h !in handles
    ensures Consistent(handles + {h}, counters) <==> Consistent(handles, counters)
  {
    forall c | c in counters ensures Owners(handles + {h}, c) == Owners(handles, c) {
    }
    assert forall c :: c in counters ==> (CellRight(handles + {h}, c) <==> CellRight(handles, c));
  }

  class SharedPtr {
    var count: Counter?
    var data: Managed?

    constructor ()
      ensures count == null && data == null
    {
      count, data := null, null;
    }

    /** Takes charge of an object that no cell is in charge of. */
    constructor Own(ptr: Managed?, ghost handles: set<SharedPtr>, ghost counters: set<Counter>)
      requires Consistent(handles, counters)
      requires ptr != null ==> ptr !in Objects(counters) && !ptr.freed
      ensures count != null && fresh(count) && data == ptr
      ensures Consistent(handles + {this}, counters + {count})
    {
      count := new Counter(ptr);
      data := ptr;
      new;
      assert Owners(handles + {this}, count) == {this};
      forall c | c in counters ensures Owners(handles + {this}, c) == Owners(handles, c) {
      }
    }

    constructor Copy(other: SharedPtr, ghost handles: set<SharedPtr>, ghost counters: set<Counter>)
      requires Consistent(handles, counters) && other in handles
      modifies other.count
      ensures count == other.count && data == other.data
      ensures Consistent(handles + {this}, counters)
    {
      count, data := null, null;
      new;
      NullHandleIsConsistent(handles, counters, this);
      Join(other, handles + {this}, counters);
    }

    constructor Move(other: SharedPtr, ghost handles: set<SharedPtr>, ghost counters: set<Counter>)
      requires Consistent(handles, counters) && other in handles
      modifies other
      ensures count == old(other.count) && data == old(other.data) && other.count == null && other.data == null
      ensures Consistent(handles + {this}, counters)
    {
      count, data := null, null;
      new;
      NullHandleIsConsistent(handles, counters, this);
      TakeOver(other, handles + {this}, counters);
    }

    /** Gives up the share. The last handle frees the cell and the object. */
    method Reset(ghost handles: set<SharedPtr>, ghost counters: set<Counter>)
      requires Consistent(handles, counters) && this in handles
      modifies this, count, data
      ensures count == null && data == null
      ensures Consistent(handles, counters)
      ensures old(count) != null ==> old(count).freed == (old(Owners(handles, count)) == {this})
    {
      if count != null {
        ghost var c: Counter, owners := count, Owners(handles, count);
        assert |owners - {this}| == |owners| - 1;
        count.n := count.n - 1;
        if count.n == 0 {
          assert owners - {this} == {};
          count.Delete();
          if data != null {
            data.Delete();
          }
        }
        count := null;
        data := null;
        assert forall h :: h in handles && h != this ==> h.count == old(h.count);
        assert Owners(handles, c) == owners - {this};
        assert forall d :: d in counters && d != c ==> Owners(handles, d) == old(Owners(handles, d)) by {
          forall d | d in counters && d != c ensures Owners(handles, d) == old(Owners(handles, d)) {
          }
        }
      }
    }

    /** Takes a share in what `other` shares. */
    method Join(other: SharedPtr, ghost handles: set<SharedPtr>, ghost counters: set<Counter>)
      requires Consistent(handles, counters) && this in handles && other in handles && this != other
      requires count == null
      modifies this, other.count
      ensures count == other.count == old(other.count) && data == other.data == old(other.data)
      ensures Consistent(handles, counters)
    {
      count := other.count;
      data := other.data;
      if count != null {
        count.n := count.n + 1;
        assert Owners(handles, count) == old(Owners(handles, other.count)) + {this};
        assert this !in old(Owners(handles, other.count)) && other in old(Owners(handles, other.count));
      }
      forall d | d in counters && d != count ensures Owners(handles, d) == old(Owners(handles, d)) {
      }
    }

    /** Copy assignment. */
    method Assign(other: SharedPtr, ghost handles: set<SharedPtr>, ghost counters: set<Counter>)
      requires Consistent(handles, counters) && this in handles && other in handles
      modifies this, count, data, other.count
      ensures Consistent(handles, counters)
      ensures count == other.count == old(other.count) && data == other.data == old(other.data)
    {
      if this != other {
        Reset(handles, counters);
        Join(other, handles, counters);
      }
    }

    /** Move assignment. */
    method MoveAssign(other: SharedPtr, ghost handles: set<SharedPtr>, ghost counters: set<Counter>)
      requires Consistent(handles, counters) && this in handles && other in handles
      modifies this, count, data, other
      ensures Consistent(handles, counters)
      ensures count == old(other.count) && data == old(other.data)
      ensures this != other ==> other.count == null && other.data == null
    {
      if this != other {
        Reset(handles, counters);
        TakeOver(other, handles, counters);
      }
    }

    method TakeOver(other: SharedPtr, ghost handles: set<SharedPtr>, ghost counters: set<Counter>)
      requires Consistent(handles, counters) && this in handles && other in handles && this != other
      requires count == null
      modifies this, other
      ensures Consistent(handles, counters)
      ensures count == old(other.count) && data == old(other.data) && other.count == null && other.data == null
    {
      count := other.count;
      data := other.data;
      other.count := null;
      other.data := null;
      if count != null {
        ghost var was := old(Owners(handles, other.count));
        assert Owners(handles, count) == was - {other} + {this};
        assert this !in was && other in was;
      }
      forall d | d in counters && d != count ensures Owners(handles, d) == old(Owners(handles, d)) {
      }
    }

    method UseCount(ghost handles: set<SharedPtr>, ghost counters: set<Counter>) returns (n: int)
      requires Consistent(handles, counters) && this in handles
      ensures n == if count == null then 0 else |Owners(handles, count)|
    {
      n := if count != null then count.n else 0;
    }
  }

  /** What a live handle is on has not been freed. */
  lemma OwnedIsLive(handles: set<SharedPtr>, counters: set<Counter>)
    requires Consistent(handles, counters)
    ensures forall h :: h in handles && h.count != null ==> !h.count.freed && (h.data != null ==> !h.data.freed)
  {
    forall h | h in handles && h.count != null ensures !h.count.freed {
      assert h in Owners(handles, h.count);
    }
  }

  /** A cell and its object have been freed exactly when no live handle is on the cell: nothing
      in use is gone, and nothing out of use is left. */
  lemma FreedWithoutHandles(handles: set<SharedPtr>, counters: set<Counter>)
    requires Consistent(handles, counters)
    ensures forall c :: c in counters ==> (c.freed <==> forall h :: h in handles ==> h.count != c)
    ensures forall c :: c in counters && c.owned != null ==> c.owned.freed == c.freed
  {
    forall c | c in counters ensures c.freed <==> forall h :: h in handles ==> h.count != c {
      assert forall h :: h in handles && h.count == c ==> h in Owners(handles, c);
    }
  }

  // ----- whole runs -----

  /** What can happen to a program's handles, which it keeps in a list: a handle is made on
      nothing, on a new object, on a null pointer or from another handle, dies, is reset, or is
      assigned another one. A handle made on a null pointer has a cell all the same. */
  datatype Op =
    | MakeDefault
    | MakeNew
    | MakeOfNull
    | MakeCopy(from: nat)
    | MakeMoved(from: nat)
    | Drop(at: nat)
    | ResetAt(at: nat)
    | AssignAt(at: nat, from: nat)
    | MoveAssignAt(at: nat, from: nat)
  {
    /** It makes a cell. */
    predicate Allocates() {
      MakeNew? || MakeOfNull?
    }

    predicate Makes() {
      MakeDefault? || MakeNew? || MakeOfNull? || MakeCopy? || MakeMoved?
    }
  }

  ghost function SetOf<T>(hs: seq<T>): set<T> {
    set h | h in hs
  }

  predicate InRange(op: Op, n: nat) {
    match op
    case MakeDefault => true
    case MakeNew => true
    case MakeOfNull => true
    case MakeCopy(i) => i < n
    case MakeMoved(i) => i < n
    case Drop(i) => i < n
    case ResetAt(i) => i < n
    case AssignAt(i, j) => i < n && j < n
    case MoveAssignAt(i, j) => i < n && j < n
  }

  ghost predicate Distinct<T>(hs: seq<T>) {
    forall i, j :: 0 <= i < j < |hs| ==> hs[i] != hs[j]
  }

  /** Which cell each handle of the list is on. */
  ghost function Shares(hs: seq<SharedPtr>): (cs: seq<Counter?>)
    reads hs
    ensures |cs| == |hs| && forall i :: 0 <= i < |hs| ==> cs[i] == hs[i].count
  {
    seq(|hs|, i requires 0 <= i < |hs| reads hs => hs[i].count)
  }

  /** What an operation does to the cells the handles are on, `none` for a handle on nothing
      and `made` for the cell it makes. */
  function SharesAfter<C>(cs: seq<C>, op: Op, made: C, none: C): seq<C>
    requires InRange(op, |cs|)
  {
    match op
    case MakeDefault => cs + [none]
    case MakeNew => cs + [made]
    case MakeOfNull => cs + [made]
    case MakeCopy(i) => cs + [cs[i]]
    case MakeMoved(i) => cs[i := none] + [cs[i]]
    case Drop(i) => cs[..i] + cs[i + 1..]
    case ResetAt(i) => cs[i := none]
    case AssignAt(i, j) => cs[i := cs[j]]
    case MoveAssignAt(i, j) => if i == j then cs else cs[i := cs[j]][j := none]
  }

  /** A run without a heap. Cells are numbered in the order they are made; `shares` says which
      one each handle is on, `owning` whether each of them was made for an object. */
  datatype Model = Model(shares: seq<Option<nat>>, owning: seq<bool>)

  function ModelAfter(m: Model, op: Op): Model {
    if !InRange(op, |m.shares|) then m
    else Model(SharesAfter(m.shares, op, Some(|m.owning|), None),
               if op.Allocates() then m.owning + [op.MakeNew?] else m.owning)
  }

  function ModelOf(ops: seq<Op>): Model {
    if ops == [] then Model([], []) else ModelAfter(ModelOf(ops[..|ops| - 1]), ops[|ops| - 1])
  }

  /** `c` is the cell with that number, or null for none. */
  ghost predicate Stands(c: Counter?, cells: seq<Counter>, share: Option<nat>) {
    match share
    case None => c == null
    case Some(k) => k < |cells| && c == cells[k]
  }

  /** The handles are on the cells that the model says, and the cells are the ones it has. */
  ghost predicate Follows(hs: seq<SharedPtr>, cells: seq<Counter>, m: Model)
    reads hs
  {
    && Distinct(cells) && |cells| == |m.owning|
    && (forall k :: 0 <= k < |cells| ==> (cells[k].owned != null <==> m.owning[k]))
    && SharesFollow(Shares(hs), cells, m.shares)
  }

  ghost predicate SharesFollow(cs: seq<Counter?>, cells: seq<Counter>, shares: seq<Option<nat>>) {
    && |cs| == |shares|
    && (forall i :: 0 <= i < |cs| ==> Stands(cs[i], cells, shares[i]))
  }

  lemma FollowAppend(cs: seq<Counter?>, cells: seq<Counter>, shares: seq<Option<nat>>, c: Counter?, share: Option<nat>)
    requires SharesFollow(cs, cells, shares) && Stands(c, cells, share)
    ensures SharesFollow(cs + [c], cells, shares + [share])
  {
  }

  lemma FollowUpdate(cs: seq<Counter?>, cells: seq<Counter>, shares: seq<Option<nat>>, i: nat,
                     c: Counter?, share: Option<nat>)
    requires SharesFollow(cs, cells, shares) && Stands(c, cells, share) && i < |cs|
    ensures SharesFollow(cs[i := c], cells, shares[i := share])
  {
  }

  lemma FollowDrop(cs: seq<Counter?>, cells: seq<Counter>, shares: seq<Option<nat>>, i: nat)
    requires SharesFollow(cs, cells, shares) && i < |cs|
    ensures SharesFollow(cs[..i] + cs[i + 1..], cells, shares[..i] + shares[i + 1..])
  {
    var ds, left := cs[..i] + cs[i + 1..], shares[..i] + shares[i + 1..];
    forall k | 0 <= k < |ds| ensures Stands(ds[k], cells, left[k]) {
      var p := if k < i then k else k + 1;
      assert ds[k] == cs[p] && left[k] == shares[p];
    }
  }

  lemma FollowMore(cs: seq<Counter?>, cells: seq<Counter>, shares: seq<Option<nat>>, made: Counter)
    requires SharesFollow(cs, cells, shares)
    ensures SharesFollow(cs, cells + [made], shares) && Stands(made, cells + [made], Some(|cells|))
  {
  }

  /** An operation does the same to the cells on the heap and to their numbers. */
  lemma FollowOn(cs: seq<Counter?>, cells: seq<Counter>, shares: seq<Option<nat>>, op: Op,
                 made: Counter?, more: seq<Counter>)
    requires SharesFollow(cs, cells, shares) && InRange(op, |cs|)
    requires op.Allocates() <==> made != null
    requires more == if made != null then cells + [made] else cells
    ensures SharesFollow(SharesAfter(cs, op, made, null), more, SharesAfter(shares, op, Some(|cells|), None))
  {
    if made != null {
      FollowMore(cs, cells, shares, made);
      FollowAppend(cs, more, shares, made, Some(|cells|));
    } else {
      assert Stands(null, cells, None);
      match op
      case MakeDefault => FollowAppend(cs, cells, shares, null, None);
      case MakeCopy(i) => FollowAppend(cs, cells, shares, cs[i], shares[i]);
      case MakeMoved(i) =>
        FollowUpdate(cs, cells, shares, i, null, None);
        FollowAppend(cs[i := null], cells, shares[i := None], cs[i], shares[i]);
      case Drop(i) => FollowDrop(cs, cells, shares, i);
      case ResetAt(i) => FollowUpdate(cs, cells, shares, i, null, None);
      case AssignAt(i, j) => FollowUpdate(cs, cells, shares, i, cs[j], shares[j]);
      case MoveAssignAt(i, j) =>
        if i != j {
          FollowUpdate(cs, cells, shares, i, cs[j], shares[j]);
          FollowUpdate(cs[i := cs[j]], cells, shares[i := shares[j]], j, null, None);
        }
      case _ =>
    }
  }

  /** Carries out one operation; one on a handle that does not exist is skipped. */
  method Apply(hs: seq<SharedPtr>, op: Op, ghost counters: set<Counter>)
    returns (left: seq<SharedPtr>, ghost cell: Counter?)
    requires Distinct(hs) && Consistent(SetOf(hs), counters)
    modifies SetOf(hs), counters, Objects(counters)
    ensures var made := if cell == null then counters else counters + {cell};
            && Distinct(left) && Consistent(SetOf(left), made)
            && fresh(SetOf(left) - SetOf(hs)) && fresh(Objects(made) - Objects(counters))
    ensures cell == null <==> !op.Allocates()
    ensures cell != null ==> fresh(cell) && (cell.owned != null <==> op.MakeNew?)
    ensures if InRange(op, |hs|) then Shares(left) == SharesAfter(old(Shares(hs)), op, cell, null)
            else left == hs && Shares(left) == old(Shares(hs))
  {
    left, cell := hs, null;
    if InRange(op, |hs|) {
      if op.Makes() {
        left, cell := Make(hs, op, counters);
      } else if op.Drop? {
        left := DropHandle(hs, op.at, counters);
      } else {
        Change(hs, op, counters);
      }
    }
  }

  method Make(hs: seq<SharedPtr>, op: Op, ghost counters: set<Counter>)
    returns (left: seq<SharedPtr>, ghost cell: Counter?)
    requires Distinct(hs) && Consistent(SetOf(hs), counters)
    requires InRange(op, |hs|) && op.Makes()
    modifies SetOf(hs), counters, Objects(counters)
    ensures var made := if cell == null then counters else counters + {cell};
            && Distinct(left) && Consistent(SetOf(left), made)
            && fresh(SetOf(left) - SetOf(hs)) && fresh(Objects(made) - Objects(counters))
    ensures cell == null <==> !op.Allocates()
    ensures cell != null ==> fresh(cell) && (cell.owned != null <==> op.MakeNew?)
    ensures Shares(left) == SharesAfter(old(Shares(hs)), op, cell, null)
  {
    ghost var handles := SetOf(hs);
    var h: SharedPtr;
    cell := null;
    if op.Allocates() {
      h := MakeOwner(op.MakeNew?, handles, counters);
      cell := h.count;
    } else if op.MakeDefault? {
      h := new SharedPtr();
      NullHandleIsConsistent(handles, counters, h);
    } else if op.MakeCopy? {
      h := new SharedPtr.Copy(hs[op.from], handles, counters);
    } else {
      h := new SharedPtr.Move(hs[op.from], handles, counters);
    }
    left := hs + [h];
    Arriving(hs, h);
  }

  /** A handle on a new object or on a null pointer. */
  method MakeOwner(owning: bool, ghost handles: set<SharedPtr>, ghost counters: set<Counter>) returns (h: SharedPtr)
    requires Consistent(handles, counters)
    ensures fresh(h) && h.count != null && fresh(h.count) && (h.count.owned != null <==> owning)
    ensures h.count.owned != null ==> fresh(h.count.owned)
    ensures Consistent(handles + {h}, counters + {h.count})
  {
    var target: Managed? := null;
    if owning {
      target := new Managed();
    }
    h := new SharedPtr.Own(target, handles, counters);
  }

  lemma Arriving(hs: seq<SharedPtr>, h: SharedPtr)
    requires Distinct(hs) && h !in hs
    ensures Distinct(hs + [h]) && SetOf(hs + [h]) == SetOf(hs) + {h}
    ensures Shares(hs + [h]) == Shares(hs) + [h.count]
  {
  }

  method DropHandle(hs: seq<SharedPtr>, at: nat, ghost counters: set<Counter>) returns (left: seq<SharedPtr>)
    requires Distinct(hs) && Consistent(SetOf(hs), counters) && at < |hs|
    modifies SetOf(hs), counters, Objects(counters)
    ensures Distinct(left) && Consistent(SetOf(left), counters) && SetOf(left) <= SetOf(hs)
    ensures Shares(left) == SharesAfter(old(Shares(hs)), Drop(at), null, null)
  {
    Change(hs, ResetAt(at), counters);
    left := hs[..at] + hs[at + 1..];
    Leaving(hs, at, left);
    SharesLeaving(hs, at, left);
    NullHandleIsConsistent(SetOf(left), counters, hs[at]);
  }

  lemma SharesLeaving(hs: seq<SharedPtr>, at: nat, left: seq<SharedPtr>)
    requires at < |hs| && left == hs[..at] + hs[at + 1..]
    ensures Shares(left) == Shares(hs)[..at] + Shares(hs)[at + 1..]
  {
    forall k | 0 <= k < |left| ensures Shares(left)[k] == (Shares(hs)[..at] + Shares(hs)[at + 1..])[k] {
      assert left[k] == hs[if k < at then k else k + 1];
    }
  }

  lemma Leaving(hs: seq<SharedPtr>, at: nat, left: seq<SharedPtr>)
    requires Distinct(hs) && at < |hs| && left == hs[..at] + hs[at + 1..]
    ensures Distinct(left) && hs[at] !in SetOf(left) && SetOf(left) + {hs[at]} == SetOf(hs)
    ensures forall k :: 0 <= k < |left| ==> left[k] == hs[if k < at then k else k + 1]
  {
    assert forall k :: 0 <= k < |left| ==> left[k] == hs[if k < at then k else k + 1];
    forall h | h in hs ensures h == hs[at] || h in left {
      var k :| 0 <= k < |hs| && hs[k] == h;
      assert k < at ==> left[k] == h;
      assert k > at ==> left[k - 1] == h;
    }
  }

  method Change(hs: seq<SharedPtr>, op: Op, ghost counters: set<Counter>)
    requires Distinct(hs) && Consistent(SetOf(hs), counters)
    requires InRange(op, |hs|) && (op.ResetAt? || op.AssignAt? || op.MoveAssignAt?)
    modifies SetOf(hs), counters, Objects(counters)
    ensures Consistent(SetOf(hs), counters)
    ensures Shares(hs) == SharesAfter(old(Shares(hs)), op, null, null)
    ensures op.ResetAt? ==> hs[op.at].data == null
  {
    ghost var handles, cs := SetOf(hs), Shares(hs);
    var h := hs[op.at];
    if op.ResetAt? {
      h.Reset(handles, counters);
      assert Shares(hs) == cs[op.at := null];
    } else if op.AssignAt? {
      h.Assign(hs[op.from], handles, counters);
      assert Shares(hs) == cs[op.at := cs[op.from]];
    } else {
      h.MoveAssign(hs[op.from], handles, counters);
      assert Shares(hs) == SharesAfter(cs, op, null, null);
    }
  }

  /** Any run of operations, from no handles at all. At its end there are as many handles, on
      the cells, and as many cells as the run has without a heap; the counts are right; and a
      cell and its object have been freed exactly when no handle of the model is on the cell. */
  method Run(ops: seq<Op>) returns (hs: seq<SharedPtr>, ghost cells: seq<Counter>)
    ensures Distinct(hs) && Consistent(SetOf(hs), SetOf(cells)) && Follows(hs, cells, ModelOf(ops))
    ensures forall k :: 0 <= k < |cells| ==>
              && (cells[k].freed <==> Some(k) !in ModelOf(ops).shares)
              && (cells[k].owned != null ==> cells[k].owned.freed == cells[k].freed)
  {
    hs, cells := [], [];
    for i := 0 to |ops|
      invariant Distinct(hs) && Consistent(SetOf(hs), SetOf(cells)) && Follows(hs, cells, ModelOf(ops[..i]))
      invariant fresh(SetOf(hs)) && fresh(SetOf(cells)) && fresh(Objects(SetOf(cells)))
    {
      assert ops[..i + 1][..i] == ops[..i];
      hs, cells := RunStep(hs, ops[i], cells, ModelOf(ops[..i]));
    }
    assert ops[..|ops|] == ops;
    FreedInModel(hs, cells, ModelOf(ops));
  }

  method RunStep(hs: seq<SharedPtr>, op: Op, ghost cells: seq<Counter>, ghost m: Model)
    returns (left: seq<SharedPtr>, ghost more: seq<Counter>)
    requires Distinct(hs) && Consistent(SetOf(hs), SetOf(cells)) && Follows(hs, cells, m)
    modifies SetOf(hs), SetOf(cells), Objects(SetOf(cells))
    ensures Distinct(left) && Consistent(SetOf(left), SetOf(more)) && Follows(left, more, ModelAfter(m, op))
    ensures fresh(SetOf(left) - SetOf(hs)) && fresh(SetOf(more) - SetOf(cells))
    ensures fresh(Objects(SetOf(more)) - Objects(SetOf(cells)))
  {
    ghost var cs, cell := Shares(hs), null;
    left, cell := Apply(hs, op, SetOf(cells));
    more := if cell == null then cells else cells + [cell];
    assert SetOf(more) == if cell == null then SetOf(cells) else SetOf(cells) + {cell};
    FollowsNext(cs, cells, m, op, cell, left, more);
  }

  lemma FollowsNext(cs: seq<Counter?>, cells: seq<Counter>, m: Model, op: Op, cell: Counter?,
                    left: seq<SharedPtr>, more: seq<Counter>)
    requires Distinct(cells) && |cells| == |m.owning| && SharesFollow(cs, cells, m.shares)
    requires forall k :: 0 <= k < |cells| ==> (cells[k].owned != null <==> m.owning[k])
    requires op.Allocates() <==> cell != null
    requires cell != null ==> cell !in cells && (cell.owned != null <==> op.MakeNew?)
    requires more == if cell != null then cells + [cell] else cells
    requires Shares(left) == if InRange(op, |cs|) then SharesAfter(cs, op, cell, null) else cs
    ensures Follows(left, more, ModelAfter(m, op))
  {
    if InRange(op, |cs|) {
      FollowOn(cs, cells, m.shares, op, cell, more);
    }
  }

  lemma FreedInModel(hs: seq<SharedPtr>, cells: seq<Counter>, m: Model)
    requires Consistent(SetOf(hs), SetOf(cells)) && Follows(hs, cells, m)
    ensures forall k :: 0 <= k < |cells| ==>
              && (cells[k].freed <==> Some(k) !in m.shares)
              && (cells[k].owned != null ==> cells[k].owned.freed == cells[k].freed)
  {
    FreedWithoutHandles(SetOf(hs), SetOf(cells));
    forall k | 0 <= k < |cells| ensures cells[k].freed <==> Some(k) !in m.shares {
      assert cells[k] in SetOf(cells);
      if Some(k) in m.shares {
        var i :| 0 <= i < |m.shares| && m.shares[i] == Some(k);
        assert Shares(hs)[i] == cells[k] && hs[i] in SetOf(hs);
      } else {
        forall h | h in SetOf(hs) ensures h.count != cells[k] {
          var i :| 0 <= i < |hs| && hs[i] == h;
          assert Stands(Shares(hs)[i], cells, m.shares[i]);
        }
      }
    }
  }
}
