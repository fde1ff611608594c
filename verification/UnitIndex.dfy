/** The deployment-unit index: the map of installed units, its saved form, and the operations
    that keep the two together. */
module UnitIndex {
  import opened Options
  import opened SortedEntries
  import opened Text

  /** An execution unit of a deployment unit. */
  datatype Service = Service(name: string, exec: string, pidfile: string, autostart: bool)

  /** The fields of a deployment unit that are saved. */
  datatype Unit = Unit(
    uuid: string, executionEnvRef: string, description: string, vendor: string, version: int,
    name: string, kind: string, rootfsPath: string,
    ipkPackages: seq<string>, installationDate: int, services: seq<Service>)

  type Entry = Pair<string, Unit>

  /** A json-c value, which json-c is taken to print and parse faithfully. */
  datatype Tree =
    | StringTree(s: string)
    | IntTree(n: int)
    | BoolTree(b: bool)
    | ArrayTree(items: seq<Tree>)
    | ObjectTree(fields: map<string, Tree>)

  // ----- saving -----

  function ServiceTree(s: Service): Tree {
    ObjectTree(map["Name" := StringTree(s.name), "Exec" := StringTree(s.exec),
                   "Pidfile" := StringTree(s.pidfile), "Autostart" := BoolTree(s.autostart)])
  }

  function StringTrees(ss: seq<string>): (ts: seq<Tree>)
    ensures |ts| == |ss|
  {
    if ss == [] then [] else [StringTree(ss[0])] + StringTrees(ss[1..])
  }

  function ServiceTrees(ss: seq<Service>): (ts: seq<Tree>)
    ensures |ts| == |ss|
  {
    if ss == [] then [] else [ServiceTree(ss[0])] + ServiceTrees(ss[1..])
  }

  function UnitTree(u: Unit): Tree {
    ObjectTree(map["UUID" := StringTree(u.uuid), "ExecutionEnvRef" := StringTree(u.executionEnvRef),
                   "Description" := StringTree(u.description), "Vendor" := StringTree(u.vendor),
                   "Version" := IntTree(u.version), "Name" := StringTree(u.name), "Type" := StringTree(u.kind),
                   "RootfsPath" := StringTree(u.rootfsPath), "ipkPackages" := ArrayTree(StringTrees(u.ipkPackages)),
                   "InstallationDate" := IntTree(u.installationDate), "Service" := ArrayTree(ServiceTrees(u.services))])
  }

  function UnitTrees(es: seq<Entry>): seq<Tree> {
    if es == [] then [] else [UnitTree(es[0].value)] + UnitTrees(es[1..])
  }

  // ----- loading; None stands for an index the program cannot have written -----
  // A number or flag that is missing is read as zero or false.

  function Field(t: Tree, key: string): Option<Tree> {
    if t.ObjectTree? && key in t.fields then Some(t.fields[key]) else None
  }

  function StringField(t: Tree, key: string): Option<string> {
    match Field(t, key)
    case Some(StringTree(s)) => Some(s)
    case _ => None
  }

  function IntField(t: Tree, key: string): Option<int> {
    match Field(t, key)
    case None => Some(0)
    case Some(IntTree(n)) => Some(n)
    case _ => None
  }

  function BoolField(t: Tree, key: string): Option<bool> {
    match Field(t, key)
    case None => Some(false)
    case Some(BoolTree(b)) => Some(b)
    case _ => None
  }

  function ReadStrings(ts: seq<Tree>): Option<seq<string>> {
    if ts == [] then Some([])
    else if !ts[0].StringTree? then None
    else match ReadStrings(ts[1..])
      case None => None
      case Some(ss) => Some([ts[0].s] + ss)
  }

  function ReadService(t: Tree): Option<Service> {
    match (StringField(t, "Name"), StringField(t, "Exec"), StringField(t, "Pidfile"), BoolField(t, "Autostart"))
    case (Some(name), Some(exec), Some(pidfile), Some(b)) => Some(Service(name, exec, pidfile, b))
    case _ => None
  }

  function ReadServices(ts: seq<Tree>): Option<seq<Service>> {
    if ts == [] then Some([])
    else match (ReadService(ts[0]), ReadServices(ts[1..]))
      case (Some(s), Some(ss)) => Some([s] + ss)
      case _ => None
  }

  /** An index without services is read as one with none. */
  function ReadServiceList(t: Tree): Option<seq<Service>> {
    match Field(t, "Service")
    case None => Some([])
    case Some(ArrayTree(ts)) => ReadServices(ts)
    case _ => None
  }

  function ReadPackages(t: Tree): Option<seq<string>> {
    match Field(t, "ipkPackages")
    case Some(ArrayTree(ts)) => ReadStrings(ts)
    case _ => None
  }

  function ReadHead(t: Tree): Option<Unit> {
    match (StringField(t, "UUID"), StringField(t, "ExecutionEnvRef"),
           StringField(t, "Description"), StringField(t, "Vendor"))
    case (Some(uuid), Some(env), Some(description), Some(vendor)) =>
      (match (IntField(t, "Version"), StringField(t, "Name"), StringField(t, "Type"), StringField(t, "RootfsPath"))
       case (Some(version), Some(name), Some(kind), Some(root)) =>
         Some(Unit(uuid, env, description, vendor, version, name, kind, root, [], 0, []))
       case _ => None)
    case _ => None
  }

  function ReadUnit(t: Tree): Option<Unit> {
    match (ReadHead(t), ReadPackages(t), IntField(t, "InstallationDate"), ReadServiceList(t))
    case (Some(u), Some(packages), Some(date), Some(services)) =>
      Some(u.(ipkPackages := packages, installationDate := date, services := services))
    case _ => None
  }

  function ReadUnits(es: seq<Entry>, ts: seq<Tree>): Option<seq<Entry>>
    decreases ts
  {
    if ts == [] then Some(es)
    else match ReadUnit(ts[0])
      case None => None
      case Some(u) => ReadUnits(InsertAbsent(StrLess, es, Pair(u.uuid, u)), ts[1..])
  }

  // ----- loading undoes saving -----

  lemma {:induction false} StringsReturn(ss: seq<string>)
    ensures ReadStrings(StringTrees(ss)) == Some(ss)
  {
    if ss == [] {
    } else {
      StringsReturn(ss[1..]);
      assert StringTrees(ss)[1..] == StringTrees(ss[1..]);
      assert [ss[0]] + ss[1..] == ss;
    }
  }

  lemma ServiceReturns(s: Service)
    ensures ReadService(ServiceTree(s)) == Some(s)
  {
    var t := ServiceTree(s);
    assert StringField(t, "Name") == Some(s.name);
    assert StringField(t, "Exec") == Some(s.exec);
    assert StringField(t, "Pidfile") == Some(s.pidfile);
    assert BoolField(t, "Autostart") == Some(s.autostart);
  }

  lemma {:induction false} ServicesReturn(ss: seq<Service>)
    ensures ReadServices(ServiceTrees(ss)) == Some(ss)
  {
    if ss == [] {
    } else {
      ServicesReturn(ss[1..]);
      ServiceReturns(ss[0]);
      assert ServiceTrees(ss)[1..] == ServiceTrees(ss[1..]);
      assert [ss[0]] + ss[1..] == ss;
    }
  }

  lemma HeadStringsReturn(u: Unit)
    ensures StringField(UnitTree(u), "UUID") == Some(u.uuid)
    ensures StringField(UnitTree(u), "ExecutionEnvRef") == Some(u.executionEnvRef)
    ensures StringField(UnitTree(u), "Description") == Some(u.description)
    ensures StringField(UnitTree(u), "Vendor") == Some(u.vendor)
  {
  }

  lemma HeadFieldsReturn(u: Unit)
    ensures IntField(UnitTree(u), "Version") == Some(u.version)
    ensures StringField(UnitTree(u), "Name") == Some(u.name)
    ensures StringField(UnitTree(u), "Type") == Some(u.kind)
    ensures StringField(UnitTree(u), "RootfsPath") == Some(u.rootfsPath)
  {
  }

  lemma ListFieldsReturn(u: Unit)
    ensures Field(UnitTree(u), "ipkPackages") == Some(ArrayTree(StringTrees(u.ipkPackages)))
    ensures IntField(UnitTree(u), "InstallationDate") == Some(u.installationDate)
    ensures Field(UnitTree(u), "Service") == Some(ArrayTree(ServiceTrees(u.services)))
  {
  }

  /** The saved form of a unit, field by field, and nothing else in it. */
  lemma {:induction false} SavedUnit(u: Unit)
    ensures UnitTree(u).ObjectTree? && UnitTree(u).fields.Keys == UnitKeys()
    ensures SavesScalars(UnitTree(u), u)
    ensures exists ts :: Field(UnitTree(u), "ipkPackages") == Some(ArrayTree(ts)) && SavesStrings(ts, u.ipkPackages)
    ensures exists ts :: Field(UnitTree(u), "Service") == Some(ArrayTree(ts)) && SavesServices(ts, u.services)
  {
    ScalarFields(u);
    ListFieldsReturn(u);
    StringTreeAt(u.ipkPackages);
    ServiceTreeAt(u.services);
  }

  ghost predicate SavesScalars(t: Tree, u: Unit) {
    && Field(t, "UUID") == Some(StringTree(u.uuid))
    && Field(t, "ExecutionEnvRef") == Some(StringTree(u.executionEnvRef))
    && Field(t, "Description") == Some(StringTree(u.description))
    && Field(t, "Vendor") == Some(StringTree(u.vendor))
    && Field(t, "Version") == Some(IntTree(u.version))
    && Field(t, "Name") == Some(StringTree(u.name))
    && Field(t, "Type") == Some(StringTree(u.kind))
    && Field(t, "RootfsPath") == Some(StringTree(u.rootfsPath))
    && Field(t, "InstallationDate") == Some(IntTree(u.installationDate))
  }

  ghost predicate SavesStrings(ts: seq<Tree>, ss: seq<string>) {
    |ts| == |ss| && forall i :: 0 <= i < |ts| ==> ts[i] == StringTree(ss[i])
  }

  ghost predicate SavesServices(ts: seq<Tree>, ss: seq<Service>) {
    |ts| == |ss| && forall i :: 0 <= i < |ts| ==> SavesService(ts[i], ss[i])
  }

  function UnitKeys(): set<string> {
    {"UUID", "ExecutionEnvRef", "Description", "Vendor", "Version", "Name", "Type", "RootfsPath",
     "ipkPackages", "InstallationDate", "Service"}
  }

  lemma ScalarFields(u: Unit)
    ensures SavesScalars(UnitTree(u), u)
  {
    HeadStringsReturn(u);
    HeadFieldsReturn(u);
    ListFieldsReturn(u);
  }

  /** The saved form of an execution unit, field by field, and nothing else in it. */
  ghost predicate SavesService(t: Tree, s: Service) {
    && t.ObjectTree? && t.fields.Keys == {"Name", "Exec", "Pidfile", "Autostart"}
    && Field(t, "Name") == Some(StringTree(s.name)) && Field(t, "Exec") == Some(StringTree(s.exec))
    && Field(t, "Pidfile") == Some(StringTree(s.pidfile)) && Field(t, "Autostart") == Some(BoolTree(s.autostart))
  }

  lemma {:induction false} StringTreeAt(ss: seq<string>)
    ensures SavesStrings(StringTrees(ss), ss)
  {
    if ss == [] {
    } else {
      StringTreeAt(ss[1..]);
      assert forall i :: 0 < i < |ss| ==> StringTrees(ss)[i] == StringTrees(ss[1..])[i - 1] && ss[i] == ss[1..][i - 1];
    }
  }

  lemma {:induction false} ServiceTreeAt(ss: seq<Service>)
    ensures SavesServices(ServiceTrees(ss), ss)
  {
    if ss == [] {
    } else {
      ServiceTreeAt(ss[1..]);
      assert SavesService(ServiceTree(ss[0]), ss[0]);
      forall i | 0 <= i < |ss| ensures SavesService(ServiceTrees(ss)[i], ss[i]) {
        if i > 0 {
          assert SavesService(ServiceTrees(ss[1..])[i - 1], ss[1..][i - 1]);
        }
      }
    }
  }

  /** An index without the numbers, the flag or the list of execution units is read with zeros,
      false and none. */
  lemma MissingFields(u: Unit, s: Service, t: Tree, st: Tree)
    requires t.ObjectTree? && t.fields == UnitTree(u).fields - {"Version", "InstallationDate", "Service"}
    requires st.ObjectTree? && st.fields == ServiceTree(s).fields - {"Autostart"}
    ensures ReadUnit(t) == Some(u.(version := 0, installationDate := 0, services := []))
    ensures ReadService(st) == Some(s.(autostart := false))
  {
    MissingInUnit(u, t);
    MissingInService(s, st);
  }

  lemma MissingInService(s: Service, t: Tree)
    requires t.ObjectTree? && t.fields == ServiceTree(s).fields - {"Autostart"}
    ensures ReadService(t) == Some(s.(autostart := false))
  {
    assert StringField(t, "Name") == Some(s.name) && StringField(t, "Exec") == Some(s.exec);
    assert StringField(t, "Pidfile") == Some(s.pidfile) && BoolField(t, "Autostart") == Some(false);
  }

  lemma MissingInUnit(u: Unit, t: Tree)
    requires t.ObjectTree? && t.fields == UnitTree(u).fields - {"Version", "InstallationDate", "Service"}
    ensures ReadUnit(t) == Some(u.(version := 0, installationDate := 0, services := []))
  {
    var gone := {"Version", "InstallationDate", "Service"};
    KeptField(UnitTree(u), t, gone);
    HeadWithout(u, t);
    PackagesKept(u, t);
    assert IntField(t, "InstallationDate") == Some(0) && ReadServiceList(t) == Some([]);
  }

  lemma HeadWithout(u: Unit, t: Tree)
    requires forall key :: key !in {"Version", "InstallationDate", "Service"} ==>
               Field(t, key) == Field(UnitTree(u), key)
    requires Field(t, "Version") == None
    ensures ReadHead(t) == Some(u.(version := 0, ipkPackages := [], installationDate := 0, services := []))
  {
    HeadStringsReturn(u);
    HeadFieldsReturn(u);
    assert IntField(t, "Version") == Some(0);
    assert StringField(t, "UUID") == Some(u.uuid) && StringField(t, "Name") == Some(u.name);
  }

  lemma PackagesKept(u: Unit, t: Tree)
    requires Field(t, "ipkPackages") == Field(UnitTree(u), "ipkPackages")
    ensures ReadPackages(t) == Some(u.ipkPackages)
  {
    ListFieldsReturn(u);
    StringsReturn(u.ipkPackages);
  }

  lemma KeptField(t: Tree, left: Tree, gone: set<string>)
    requires t.ObjectTree? && left.ObjectTree? && left.fields == t.fields - gone
    ensures forall key :: key !in gone ==> Field(left, key) == Field(t, key)
    ensures forall key :: key in gone ==> Field(left, key) == None
  {
  }

  lemma UnitReturns(u: Unit)
    ensures ReadUnit(UnitTree(u)) == Some(u)
  {
    HeadStringsReturn(u);
    HeadFieldsReturn(u);
    ListFieldsReturn(u);
    StringsReturn(u.ipkPackages);
    ServicesReturn(u.services);
  }

  ghost predicate KeyedByUuid(es: seq<Entry>) {
    forall i :: 0 <= i < |es| ==> es[i].key == es[i].value.uuid
  }

  lemma {:induction false} UnitsReturn(before: seq<Entry>, es: seq<Entry>)
    requires KeyedByUuid(es)
    ensures ReadUnits(before, UnitTrees(es)) == Some(InsertAll(StrLess, before, es))
    decreases es
  {
    if es == [] {
    } else {
      UnitReturns(es[0].value);
      assert UnitTrees(es)[1..] == UnitTrees(es[1..]);
      assert Pair(es[0].value.uuid, es[0].value) == es[0];
      UnitsReturn(InsertAbsent(StrLess, before, es[0]), es[1..]);
    }
  }

  /** Of two units with one uuid in an index the first one is kept. */
  lemma {:induction false} FirstIsKept(es: seq<Entry>, u: Unit)
    requires Sorted(StrLess, es)
    ensures ReadUnits(es, [UnitTree(u)]).Some?
    ensures MapOf(ReadUnits(es, [UnitTree(u)]).value) ==
              if u.uuid in MapOf(es) then MapOf(es) else MapOf(es)[u.uuid := u]
  {
    StrLessIsTotalOrder();
    UnitReturns(u);
    InsertAbsentIsMapInsert(StrLess, es, Pair(u.uuid, u));
    assert [UnitTree(u)][1..] == [];
  }

  /** Loading the saved form of a map gives the map back, with all saved fields and nested lists in order. */
  lemma {:induction false} LoadUndoesSave(es: seq<Entry>)
    requires Sorted(StrLess, es) && KeyedByUuid(es)
    ensures ReadUnits([], UnitTrees(es)) == Some(es)
  {
    StrLessIsTotalOrder();
    UnitsReturn([], es);
    InsertSorted(StrLess, es);
  }

  // ----- the helper -----

  /** The index file: not there, cut short by a write, or holding an array of units. */
  datatype IndexFile = Missing | Damaged | Saved(units: seq<Tree>)

  /** How writing the index goes: opening it truncates it. A write that is cut short is not
      told from a complete one. */
  datatype Write = OpenFails | WriteFails | CutShort | Written
  {
    /** What `saveCache` answers. */
    predicate Reported() {
      CutShort? || Written?
    }
  }

  /** How the steps of a removal and of an addition go that lie outside the index. `du` is the
      unit as preparing and installing it leave it, as far as they get. */
  datatype RemoveEnv = RemoveEnv(container: bool, isDefined: bool, removed: bool, write: Write)
  datatype AddEnv = AddEnv(container: bool, isDefined: bool, prepared: bool, du: Unit, installed: bool,
                           write: Write, rootPathUpdated: bool, rollback: RemoveEnv)

  /** The units of a fresh process. It ignores that a damaged index cannot be read, and has none. */
  function Loaded(file: IndexFile): Option<seq<Entry>> {
    match file
    case Missing => Some([])
    case Damaged => Some([])
    case Saved(ts) => ReadUnits([], ts)
  }

  datatype State = State(units: seq<Entry>, file: IndexFile)

  function AfterSave(s: State, w: Write): State {
    match w
    case OpenFails => s
    case WriteFails => s.(file := Damaged)
    case CutShort => s.(file := Damaged)
    case Written => s.(file := Saved(UnitTrees(s.units)))
  }

  /** The outside steps of a removal let it go through. */
  predicate GoesThrough(env: RemoveEnv) {
    env.container && env.isDefined && env.removed
  }

  function AfterRemove(s: State, uuid: string, env: RemoveEnv): State {
    if Has(StrLess, s.units, uuid) && GoesThrough(env)
    then AfterSave(s.(units := Remove(StrLess, s.units, uuid)), env.write)
    else s
  }

  predicate Installs(env: AddEnv) {
    && env.container && env.isDefined && env.prepared
    && env.du.name != "" && ' ' !in env.du.name
    && env.installed
  }

  /** An addition that is carried out and not rolled back. */
  predicate Stays(env: AddEnv) {
    env.write.Reported() && env.rootPathUpdated
  }

  function AfterAdd(s: State, uuid: string, env: AddEnv): State {
    if !Installs(env) then s
    else
      var saved := AfterSave(s.(units := InsertAbsent(StrLess, s.units, Pair(uuid, env.du))), env.write);
      if Stays(env) then saved else AfterRemove(saved, uuid, env.rollback)
  }

  /** The unit keeps the uuid it was made with. */
  predicate Proper(uuid: string, env: AddEnv) {
    env.du.uuid == uuid
  }

  method SaveUnit(u: Unit) returns (duData: Tree)
    ensures duData == UnitTree(u)
  {
    var packages: seq<Tree> := [];
    for i := 0 to |u.ipkPackages|
      invariant packages + StringTrees(u.ipkPackages[i..]) == StringTrees(u.ipkPackages)
    {
      assert u.ipkPackages[i..][1..] == u.ipkPackages[i + 1..];
      packages := packages + [StringTree(u.ipkPackages[i])];
    }
    assert packages + [] == packages;
    var services: seq<Tree> := [];
    for i := 0 to |u.services|
      invariant services + ServiceTrees(u.services[i..]) == ServiceTrees(u.services)
    {
      assert u.services[i..][1..] == u.services[i + 1..];
      services := services + [ServiceTree(u.services[i])];
    }
    assert services + [] == services;
    duData := ObjectTree(map[
      "UUID" := StringTree(u.uuid), "ExecutionEnvRef" := StringTree(u.executionEnvRef),
      "Description" := StringTree(u.description), "Vendor" := StringTree(u.vendor),
      "Version" := IntTree(u.version), "Name" := StringTree(u.name), "Type" := StringTree(u.kind),
      "RootfsPath" := StringTree(u.rootfsPath), "ipkPackages" := ArrayTree(packages),
      "InstallationDate" := IntTree(u.installationDate), "Service" := ArrayTree(services)]);
  }

  method LoadStrings(ts: seq<Tree>) returns (ss: seq<string>)
    requires ReadStrings(ts).Some?
    ensures ReadStrings(ts) == Some(ss)
  {
    ss := [];
    for i := 0 to |ts|
      invariant ReadStrings(ts[i..]).Some? && ss + ReadStrings(ts[i..]).value == ReadStrings(ts).value
    {
      assert ts[i..][1..] == ts[i + 1..];
      ss := ss + [ts[i].s];
    }
    assert ts[|ts|..] == [] && ss + [] == ss;
  }

  method LoadServices(ts: seq<Tree>) returns (ss: seq<Service>)
    requires ReadServices(ts).Some?
    ensures ReadServices(ts) == Some(ss)
  {
    ss := [];
    for i := 0 to |ts|
      invariant ReadServices(ts[i..]).Some? && ss + ReadServices(ts[i..]).value == ReadServices(ts).value
    {
      assert ts[i..][1..] == ts[i + 1..];
      ss := ss + [ReadService(ts[i]).value];
    }
    assert ts[|ts|..] == [] && ss + [] == ss;
  }

  method LoadUnit(duData: Tree) returns (u: Unit)
    requires ReadUnit(duData).Some?
    ensures ReadUnit(duData) == Some(u)
  {
    u := ReadHead(duData).value;
    var packages := LoadStrings(duData.fields["ipkPackages"].items);
    u := u.(ipkPackages := packages);
    u := u.(installationDate := IntField(duData, "InstallationDate").value);
    if "Service" in duData.fields {
      var services := LoadServices(duData.fields["Service"].items);
      u := u.(services := services);
    }
  }

  lemma FoundAt(es: seq<Entry>, i: nat)
    requires Sorted(StrLess, es) && KeyedByUuid(es) && i < |es|
    ensures Has(StrLess, es, es[i].key) && Remove(StrLess, es, es[i].key) == es[..i] + es[i + 1..]
    ensures Sorted(StrLess, es[..i] + es[i + 1..]) && KeyedByUuid(es[..i] + es[i + 1..])
  {
    StrLessIsTotalOrder();
    RankFinds(StrLess, es, es[i].key);
    OrderKept(StrLess, es, es[i]);
  }

  lemma NotFound(es: seq<Entry>, uuid: string)
    requires forall k :: 0 <= k < |es| ==> es[k].key != uuid
    ensures !Has(StrLess, es, uuid)
  {
  }

  class DeploymentUnitHelper {
    var deploymentUnits: seq<Entry>   // the contents of the map
    var file: IndexFile

    ghost predicate Valid()
      reads this
    {
      Sorted(StrLess, deploymentUnits) && KeyedByUuid(deploymentUnits)
    }

    ghost function Now(): State
      reads this
    {
      State(deploymentUnits, file)
    }

    /** A fresh process: it loads the index and ignores whether that worked. */
    constructor (file: IndexFile)
      requires Loaded(file).Some?
      ensures Valid() && this.file == file && Some(deploymentUnits) == Loaded(file)
    {
      deploymentUnits, this.file := [], file;
      new;
      var ok := LoadCache();
    }

    /** The map's `insert`. */
    method InsertUnit(uuid: string, du: Unit)
      requires Valid() && du.uuid == uuid
      modifies this`deploymentUnits
      ensures Valid() && deploymentUnits == InsertAbsent(StrLess, old(deploymentUnits), Pair(uuid, du))
    {
      StrLessIsTotalOrder();
      OrderKept(StrLess, deploymentUnits, Pair(uuid, du));
      deploymentUnits := InsertAbsent(StrLess, deploymentUnits, Pair(uuid, du));
    }

    method SaveCache(w: Write) returns (ok: bool)
      modifies this`file
      ensures Now() == AfterSave(old(Now()), w) && ok == w.Reported()
    {
      var cache: seq<Tree> := [];
      for i := 0 to |deploymentUnits|
        invariant unchanged(this)
        invariant cache + UnitTrees(deploymentUnits[i..]) == UnitTrees(deploymentUnits)
      {
        assert deploymentUnits[i..][1..] == deploymentUnits[i + 1..];
        var duData := SaveUnit(deploymentUnits[i].value);
        cache := cache + [duData];
      }
      assert cache == UnitTrees(deploymentUnits) by { assert cache + [] == cache; }
      if w.OpenFails? {
        return false;
      }
      file := Damaged;
      if w.WriteFails? {
        return false;
      }
      if w.Written? {
        file := Saved(cache);
      }
      return true;
    }

    method LoadCache() returns (ok: bool)
      requires Valid() && (file.Saved? ==> ReadUnits(deploymentUnits, file.units).Some?)
      modifies this`deploymentUnits
      ensures Valid() && ok == !file.Damaged?
      ensures if file.Saved? then Some(deploymentUnits) == ReadUnits(old(deploymentUnits), file.units)
              else deploymentUnits == old(deploymentUnits)
    {
      if file.Missing? {
        return true;
      }
      if file.Damaged? {
        return false;
      }
      var i := 0;
      while i < |file.units|
        invariant 0 <= i <= |file.units| && Valid()
        invariant ReadUnits(deploymentUnits, file.units[i..]) == ReadUnits(old(deploymentUnits), file.units)
        invariant ReadUnits(deploymentUnits, file.units[i..]).Some?
      {
        assert file.units[i..][1..] == file.units[i + 1..];
        var u := LoadUnit(file.units[i]);
        assert ReadUnit(file.units[i..][0]) == Some(u);
        InsertUnit(u.uuid, u);
        i := i + 1;
      }
      return true;
    }

    method RemoveDeploymentUnit(uuid: string, env: RemoveEnv) returns (ok: bool)
      requires Valid()
      modifies this
      ensures Valid() && Now() == AfterRemove(old(Now()), uuid, env)
      ensures ok <==> (&& Has(StrLess, old(deploymentUnits), uuid)
                       && env.container && env.isDefined && env.removed
                       && (env.write == Written || env.write == CutShort))
    {
      var i := 0;
      while i < |deploymentUnits|
        invariant 0 <= i <= |deploymentUnits|
        invariant forall k :: 0 <= k < i ==> deploymentUnits[k].key != uuid
      {
        if uuid != deploymentUnits[i].value.uuid {
          i := i + 1;
          continue;
        }
        FoundAt(deploymentUnits, i);
        if !env.container || !env.isDefined || !env.removed {
          return false;
        }
        deploymentUnits := deploymentUnits[..i] + deploymentUnits[i + 1..];
        ok := SaveCache(env.write);
        return ok;
      }
      NotFound(deploymentUnits, uuid);
      return false;
    }

    method AddDeploymentUnit(uuid: string, env: AddEnv) returns (du: Unit)
      requires Valid() && Proper(uuid, env)
      modifies this
      ensures Valid() && Now() == AfterAdd(old(Now()), uuid, env)
      ensures du == env.du
    {
      du := env.du;
      if !env.container || !env.isDefined || !env.prepared {
        return;
      }
      if du.name == "" || ' ' in du.name {
        return;
      }
      if !env.installed {
        return;
      }
      InsertUnit(uuid, du);
      var saved := SaveCache(env.write);
      if !saved {
        var removed := RemoveDeploymentUnit(du.uuid, env.rollback);
        return;
      }
      if !env.rootPathUpdated {
        var removed := RemoveDeploymentUnit(du.uuid, env.rollback);
      }
    }
  }

  // ----- which outside steps matter -----

  /** A removal without a container, of one that is not defined, or whose unit cannot be removed
      leaves map and file alone, and so does one of a unit that is not there. If all three go
      well, exactly the unit with that uuid is gone, whatever becomes of the file. */
  lemma {:induction false} RemovalNeedsAll(s: State, uuid: string, env: RemoveEnv)
    requires Sorted(StrLess, s.units) && KeyedByUuid(s.units)
    ensures !env.container || !env.isDefined || !env.removed || uuid !in MapOf(s.units) ==>
              AfterRemove(s, uuid, env) == s
    ensures env.container && env.isDefined && env.removed ==>
              MapOf(AfterRemove(s, uuid, env).units) == MapOf(s.units) - {uuid}
    ensures env.container && env.isDefined && env.removed && uuid in MapOf(s.units) ==>
              AfterRemove(s, uuid, env).file == match env.write
                                                case OpenFails => s.file
                                                case WriteFails => Damaged
                                                case CutShort => Damaged
                                                case Written => Saved(UnitTrees(Remove(StrLess, s.units, uuid)))
  {
    StrLessIsTotalOrder();
    HasIsMembership(StrLess, s.units, uuid);
    RemoveIsMapRemove(StrLess, s.units, uuid);
    assert uuid !in MapOf(s.units) ==> MapOf(s.units) - {uuid} == MapOf(s.units);
  }

  /** An addition without a container, to one that is not defined, of a unit that cannot be
      prepared, has no name or a space in it, or cannot be installed leaves map and file alone. */
  lemma AdditionNeedsAll(s: State, uuid: string, env: AddEnv)
    requires !env.container || !env.isDefined || !env.prepared || !env.installed
             || env.du.name == "" || ' ' in env.du.name
    ensures AfterAdd(s, uuid, env) == s
  {
  }

  /** If all of them go well, the unit is in the map when the write is taken to have succeeded and
      the container's root path is updated, unless the uuid was in use before; otherwise what a
      removal of the uuid leaves is left. */
  lemma {:induction false} AdditionAdds(s: State, uuid: string, env: AddEnv)
    requires Sorted(StrLess, s.units) && KeyedByUuid(s.units) && Proper(uuid, env)
    requires env.container && env.isDefined && env.prepared && env.installed && env.du.name != "" && ' ' !in env.du.name
    ensures (env.write == Written || env.write == CutShort) && env.rootPathUpdated ==>
              MapOf(AfterAdd(s, uuid, env).units) ==
                if uuid in MapOf(s.units) then MapOf(s.units) else MapOf(s.units)[uuid := env.du]
    ensures (env.write == OpenFails || env.write == WriteFails || !env.rootPathUpdated) ==>
              var added := s.(units := InsertAbsent(StrLess, s.units, Pair(uuid, env.du)));
              AfterAdd(s, uuid, env) == AfterRemove(AfterSave(added, env.write), uuid, env.rollback)
  {
    StrLessIsTotalOrder();
    InsertAbsentIsMapInsert(StrLess, s.units, Pair(uuid, env.du));
  }

  // ----- the index follows the map -----

  /** A fresh process would have the map that is in memory. */
  ghost predicate InSync(s: State) {
    Sorted(StrLess, s.units) && KeyedByUuid(s.units) && Loaded(s.file) == Some(s.units)
  }

  datatype Op = AddOp(uuid: string, env: AddEnv) | RemoveOp(uuid: string, renv: RemoveEnv)

  function After(s: State, op: Op): State {
    match op
    case AddOp(uuid, env) => AfterAdd(s, uuid, env)
    case RemoveOp(uuid, env) => AfterRemove(s, uuid, env)
  }

  predicate ProperOp(op: Op) {
    op.AddOp? ==> Proper(op.uuid, op.env)
  }

  /** When a removal that goes through leaves a file that loads as the map: the write succeeds,
      or it empties a file that should be empty. */
  predicate RemoveKeeps(s: State, uuid: string, env: RemoveEnv) {
    Has(StrLess, s.units, uuid) && GoesThrough(env) ==>
      env.write.Written? || (!env.write.OpenFails? && Remove(StrLess, s.units, uuid) == [])
  }

  /** The same for an addition. If it stays, its write must be complete. If its rollback is not
      carried out, its write must be complete, or not touch the file when the unit was there
      before. If the rollback is carried out, the last write that opened the file must be the
      rollback's own; or no other unit is left and the file is damaged; or no write opened the
      file and the unit is new. */
  predicate AddKeeps(s: State, uuid: string, env: AddEnv) {
    Installs(env) ==>
      if Stays(env) then env.write.Written?
      else if !GoesThrough(env.rollback)
      then env.write.Written? || (env.write.OpenFails? && Has(StrLess, s.units, uuid))
      else match env.rollback.write
        case Written => true
        case OpenFails =>
          (match env.write
           case Written => false
           case OpenFails => !Has(StrLess, s.units, uuid)
           case _ => Remove(StrLess, s.units, uuid) == [])
        case _ => Remove(StrLess, s.units, uuid) == []
  }

  predicate Keeps(s: State, op: Op) {
    match op
    case AddOp(uuid, env) => AddKeeps(s, uuid, env)
    case RemoveOp(uuid, env) => RemoveKeeps(s, uuid, env)
  }

  /** A write leaves map and index together exactly when it succeeds, or does not touch the
      file while the file happens to hold the map already, or damages it while the map is empty. */
  lemma {:induction false} SaveSync(s: State, w: Write)
    requires Sorted(StrLess, s.units) && KeyedByUuid(s.units)
    ensures InSync(AfterSave(s, w)) <==>
              match w
              case Written => true
              case OpenFails => Loaded(s.file) == Some(s.units)
              case _ => s.units == []
  {
    LoadUndoesSave(s.units);
  }

  lemma RemovedUnits(units: seq<Entry>, uuid: string)
    requires Sorted(StrLess, units) && KeyedByUuid(units)
    ensures var left := Remove(StrLess, units, uuid);
            Sorted(StrLess, left) && KeyedByUuid(left) && (left == units <==> !Has(StrLess, units, uuid))
  {
    StrLessIsTotalOrder();
    RemoveIsMapRemove(StrLess, units, uuid);
  }

  lemma AddedUnits(units: seq<Entry>, uuid: string, u: Unit)
    requires Sorted(StrLess, units) && KeyedByUuid(units) && u.uuid == uuid
    ensures var more := InsertAbsent(StrLess, units, Pair(uuid, u));
            && Sorted(StrLess, more) && KeyedByUuid(more) && Has(StrLess, more, uuid)
            && (more == units <==> Has(StrLess, units, uuid))
            && Remove(StrLess, more, uuid) == Remove(StrLess, units, uuid)
  {
    StrLessIsTotalOrder();
    OrderKept(StrLess, units, Pair(uuid, u));
    RankOfInserted(StrLess, units, Pair(uuid, u));
    RemoveAfterInsert(StrLess, units, Pair(uuid, u));
  }

  lemma {:induction false} RemoveSync(s: State, uuid: string, env: RemoveEnv)
    requires InSync(s)
    ensures InSync(AfterRemove(s, uuid, env)) <==> RemoveKeeps(s, uuid, env)
  {
    RemovedUnits(s.units, uuid);
    SaveSync(s.(units := Remove(StrLess, s.units, uuid)), env.write);
  }

  lemma {:induction false} AddSync(s: State, uuid: string, env: AddEnv)
    requires InSync(s) && Proper(uuid, env)
    ensures InSync(AfterAdd(s, uuid, env)) <==> AddKeeps(s, uuid, env)
  {
    if Installs(env) {
      AddedUnits(s.units, uuid, env.du);
      RemovedUnits(s.units, uuid);
      var added := s.(units := InsertAbsent(StrLess, s.units, Pair(uuid, env.du)));
      SaveSync(added, env.write);
      var saved := AfterSave(added, env.write);
      var left := saved.(units := Remove(StrLess, added.units, uuid));
      SaveSync(left, env.rollback.write);
      LoadUndoesSave(added.units);
      assert added.units != [];
    }
  }

  /** Whatever fails on the way, an operation on a map that the index agrees with leaves them
      in agreement exactly when `Keeps` says so. */
  lemma {:induction false} StepSync(s: State, op: Op)
    requires InSync(s) && ProperOp(op)
    ensures InSync(After(s, op)) <==> Keeps(s, op)
  {
    match op
    case RemoveOp(uuid, env) => RemoveSync(s, uuid, env);
    case AddOp(uuid, env) => AddSync(s, uuid, env);
  }

  /** Every write of the operation succeeds. */
  predicate WritesSucceed(op: Op) {
    match op
    case AddOp(_, env) => env.write.Written? && env.rollback.write.Written?
    case RemoveOp(_, env) => env.write.Written?
  }

  function AfterRun(s: State, ops: seq<Op>): State
    decreases ops
  {
    if ops == [] then s else AfterRun(After(s, ops[0]), ops[1..])
  }

  /** Reloading the index gives the map before the run and at each return. */
  ghost predicate AlwaysInSync(s: State, ops: seq<Op>)
    decreases ops
  {
    InSync(s) && (ops != [] ==> AlwaysInSync(After(s, ops[0]), ops[1..]))
  }

  predicate AllKeep(s: State, ops: seq<Op>)
    decreases ops
  {
    ops == [] || (Keeps(s, ops[0]) && AllKeep(After(s, ops[0]), ops[1..]))
  }

  /** Over every run of additions and removals: the index stays the saved form of the map
      throughout exactly when each operation keeps it, and that is so when all writes succeed,
      whatever else fails and is rolled back. */
  lemma {:induction false} RunSync(s: State, ops: seq<Op>)
    requires InSync(s) && forall i :: 0 <= i < |ops| ==> ProperOp(ops[i])
    ensures AlwaysInSync(s, ops) <==> AllKeep(s, ops)
    ensures (forall i :: 0 <= i < |ops| ==> WritesSucceed(ops[i])) ==> AlwaysInSync(s, ops) && InSync(AfterRun(s, ops))
    decreases ops
  {
    if ops == [] {
    } else {
      StepSync(s, ops[0]);
      if Keeps(s, ops[0]) {
        RunSync(After(s, ops[0]), ops[1..]);
      }
    }
  }

  /** A fresh index, not yet written, agrees with an empty map. */
  lemma FreshIsInSync()
    ensures InSync(State([], Missing))
  {
  }

  /** A rolled-back addition restores the units exactly when the uuid was new: otherwise
      the unit that had the uuid before is removed. */
  lemma {:induction false} RollbackRestores(s: State, uuid: string, env: AddEnv)
    requires Sorted(StrLess, s.units) && KeyedByUuid(s.units)
    requires Proper(uuid, env) && Installs(env) && !Stays(env) && GoesThrough(env.rollback)
    ensures AfterAdd(s, uuid, env).units == Remove(StrLess, s.units, uuid)
    ensures AfterAdd(s, uuid, env).units == s.units <==> !Has(StrLess, s.units, uuid)
  {
    AddedUnits(s.units, uuid, env.du);
    RemovedUnits(s.units, uuid);
    var added := s.(units := InsertAbsent(StrLess, s.units, Pair(uuid, env.du)));
    SaveKeepsUnits(added, env.write);
    SaveKeepsUnits(AfterSave(added, env.write).(units := Remove(StrLess, added.units, uuid)), env.rollback.write);
  }

  lemma SaveKeepsUnits(s: State, w: Write)
    ensures AfterSave(s, w).units == s.units
  {
  }

  /** An addition whose write damages the file, and which is not rolled back, leaves map and
      index apart. */
  lemma {:induction false} LeftApart(s: State, uuid: string, env: AddEnv)
    requires InSync(s) && Proper(uuid, env) && Installs(env)
    requires !env.write.Written? && !env.write.OpenFails?
    requires Stays(env) || !GoesThrough(env.rollback)
    ensures !InSync(AfterAdd(s, uuid, env)) && Has(StrLess, AfterAdd(s, uuid, env).units, uuid)
  {
    AddSync(s, uuid, env);
    AddedUnits(s.units, uuid, env.du);
  }

  /** A failed write can leave the map and the index apart, even after the rollback: here the
      index is cut short and the unit stays. A write that is cut short is not even rolled back. */
  lemma FailedWriteBreaksSync(s: State, uuid: string, u: Unit)
    requires InSync(s) && u.uuid == uuid && u.name == "du"
    ensures var rollback := RemoveEnv(false, true, true, Written);
            var failed := AfterAdd(s, uuid, AddEnv(true, true, true, u, true, WriteFails, true, rollback));
            !InSync(failed) && Has(StrLess, failed.units, uuid)
    ensures var rollback := RemoveEnv(true, true, true, Written);
            var cut := AfterAdd(s, uuid, AddEnv(true, true, true, u, true, CutShort, true, rollback));
            !InSync(cut) && Has(StrLess, cut.units, uuid)
  {
    LeftApart(s, uuid, AddEnv(true, true, true, u, true, WriteFails, true, RemoveEnv(false, true, true, Written)));
    LeftApart(s, uuid, AddEnv(true, true, true, u, true, CutShort, true, RemoveEnv(true, true, true, Written)));
  }
}
