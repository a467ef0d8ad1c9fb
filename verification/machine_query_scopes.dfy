/** What the filters of a machine query ask for: which arguments they send, that their values
    are only sent as arguments, which page is fetched, and that every table alias is bound by
    one join, before it is used. */
module MachineQueryScopes {
  import opened Wrappers
  import opened MachineQueries
  import opened MachineQueryLaws
  import Decimal
  import QuotedWords

  // ----- arguments -----

  /** A filter asks for something if it has a value, and for the absence of something if
      that is the none value; serial numbers are always compared. */
  predicate Compares(f: Filter) {
    f.value != "" && (f.value != "\U{2400}" || f.kind.SerialNumber? || f.kind.DateTime?)
  }

  /** The arguments of the conditions are the value of the filter, as often as it is
      compared. */
  lemma {:induction false} ArgsAreTheValue(f: Filter)
    ensures WhereArgs(f) != [] <==> Compares(f)
    ensures |WhereArgs(f)| == if !Compares(f) then 0 else if f.kind.PrincipalUserName? then 2 else 1
    ensures forall a | a in WhereArgs(f) ::
              match f.kind
              case DateTime => f.moment.Some? ==> a == Moment(f.moment.value)
              case SerialNumber => a == Like(f.value)
              case _ => a == Value(f.value)
  {
  }

  /** The arguments of the joins are the bundle. */
  lemma {:induction false} JoinArgsAreTheBundle(f: Filter, j: Join)
    requires j in Joins(f)
    ensures j.args == match f.kind case Bundle(_, bundle) => [Value(bundle)] case _ => []
  {
    if !f.kind.Bundle? {
      PlainJoins(f);
    }
  }

  /** The texts do not depend on the value, but for whether there is one and whether it is
      the none value. */
  lemma {:induction false} ValueOnlyInArgs(f: Filter, g: Filter)
    requires f.idx == g.idx && f.kind == g.kind
    requires (f.value == "" <==> g.value == "") && (f.value == "\U{2400}" <==> g.value == "\U{2400}")
    ensures Joins(f) == Joins(g) && Wheres(f) == Wheres(g)
  {
  }

  /** Nor do the joins depend on the bundle. */
  lemma {:induction false} BundleOnlyInArgs(f: Filter, g: Filter)
    requires f.idx == g.idx && f.kind.Bundle? && g.kind.Bundle? && f.kind.byId == g.kind.byId
    ensures |Joins(f)| == |Joins(g)| == 1 && Joins(f)[0].text == Joins(g)[0].text
  {
  }

  // ----- pages -----

  /** The first row and the number of rows of a page. */
  ghost predicate PageIs(b: Built, offset: int, limit: int) {
    b.args == [Arg(Query, Number(limit)), Arg(Query, Number(offset))]
  }

  /** The first page starts at the first row, each page where the one before ends, and a page
      has at least one row. */
  lemma {:induction false} PagesFollow(page: int, paginateBy: int)
    ensures exists limit :: limit >= 1 && limit >= paginateBy && (paginateBy >= 1 ==> limit == paginateBy) &&
              PageIs(LimitOffset(1, paginateBy), 0, limit)
    ensures page <= 1 ==> LimitOffset(page, paginateBy) == LimitOffset(1, paginateBy)
    ensures forall offset, limit | page >= 1 && PageIs(LimitOffset(page, paginateBy), offset, limit) ::
              PageIs(LimitOffset(page + 1, paginateBy), offset + limit, limit)
  {
    var limit := if paginateBy > 1 then paginateBy else 1;
    assert PageIs(LimitOffset(1, paginateBy), 0, limit);
    if page >= 1 {
      assert PageIs(LimitOffset(page, paginateBy), (page - 1) * limit, limit);
      assert PageIs(LimitOffset(page + 1, paginateBy), page * limit, limit);
      assert page * limit == (page - 1) * limit + limit;
    }
  }

  // ----- conditions -----

  /** Conditions in every other place, and AND between them. */
  ghost predicate Alternate(parts: seq<Part>, joined: seq<Part>) {
    && |joined| == (if parts == [] then 0 else 2 * |parts| - 1)
    && forall k | 0 <= k < |joined| ::
         joined[k] == if k % 2 == 0 then parts[k / 2] else Part(Query, [Sql(" AND ")])
  }

  lemma {:induction false} AndBetween(parts: seq<Part>)
    ensures Alternate(parts, JoinedByAnd(parts))
  {
    if |parts| > 1 {
      var front, last := parts[..|parts| - 1], parts[|parts| - 1];
      FrontAndLast(parts);
      AndBetween(front);
      OneMoreCondition(front, last, JoinedByAnd(front));
    }
  }

  lemma {:induction false} OneMoreCondition(front: seq<Part>, last: Part, joined: seq<Part>)
    requires front != [] && Alternate(front, joined)
    ensures Alternate(front + [last], joined + [Part(Query, [Sql(" AND ")]), last])
  {
    var parts, more := front + [last], joined + [Part(Query, [Sql(" AND ")]), last];
    forall k | 0 <= k < |more|
      ensures more[k] == if k % 2 == 0 then parts[k / 2] else Part(Query, [Sql(" AND ")])
    {
      if k < |joined| {
        assert more[k] == joined[k];
      }
    }
  }

  // ----- aliases -----

  type Alias = string

  /** The alias that a join text binds. */
  function Binds(name: FixedText): Option<Alias> {
    match name
    case JoinPreviousSnapshots => Some("dtfms")
    case JoinCurrentSnapshots => Some("cms")
    case JoinSources => Some("src")
    case JoinBusinessUnits => Some("bu")
    case JoinMetaBusinessUnits => Some("mbu")
    case JoinTags => Some("t")
    case JoinTagBusinessUnits => Some("tmbu")
    case JoinIncidents => Some("mis")
    case JoinSystemInfo => Some("si")
    case JoinOSVersions => Some("osv")
    case JoinPrincipalUsers => Some("pu")
    case JoinMachineGroupLinks => Some("msg")
    case JoinMachineGroups => Some("mg")
    case JoinAppInstances => Some("mosai")
    case FromSnapshots => Some("ms")
    case _ => None
  }

  /** The other aliases that a text uses. */
  function Uses(name: FixedText): set<Alias> {
    match name
    case JoinPreviousSnapshots => {}
    case JoinMetaBusinessUnits => {"bu"}
    case JoinTagBusinessUnits => {"t"}
    case JoinMachineGroups => {"msg"}
    case WhereSameSerialNumber => {"ms", "dtfms"}
    case WhereSameSource => {"ms", "dtfms"}
    case WhereNewer => {"ms", "dtfms"}
    case WhereNoNewer => {"dtfms"}
    case WhereComputerName => {"si"}
    case WhereNoComputerName => {"si"}
    case WherePrincipalName => {"pu"}
    case OrDisplayName => {"pu"}
    case WhereNoPrincipalName => {"pu"}
    case FromSnapshots => {}
    case SelectMachines => {}
    case GroupMachines => {}
    case _ => {"ms"}
  }

  /** What comes before the first dot. */
  function BeforeDot(s: string): string {
    if s == "" || s[0] == '.' then "" else [s[0]] + BeforeDot(s[1..])
  }

  lemma {:induction false} BeforeDotIs(alias: string, rest: string)
    requires '.' !in alias
    ensures BeforeDot(alias + "." + rest) == alias
  {
    var s := alias + "." + rest;
    if alias != "" {
      BeforeDotIs(alias[1..], rest);
      assert s[1..] == alias[1..] + "." + rest && alias == [alias[0]] + alias[1..] && alias[0] in alias;
    }
  }

  function UsedIn(f: Fragment): set<Alias> {
    if f == [] then {}
    else
      UsedIn(f[..|f| - 1]) +
      match f[|f| - 1]
      case Fixed(name) => Uses(name)
      case Sql(text) => if '.' in text then {BeforeDot(text)} else {}
      case Placeholder => {}
  }

  /** The alias that the text of a join binds: that of its name, or for a bundle "a" and the
      number of the filter. */
  function BoundBy(f: Fragment): Option<Alias> {
    if f == [] || !f[0].Fixed? then None
    else if f[0].name.JoinAppsById? || f[0].name.JoinAppsByName? then
      if |f| == 5 && f[3].Sql? then Some("a" + f[3].text) else None
    else Binds(f[0].name)
  }

  function AllBound(joins: seq<Join>): set<Alias> {
    set j | j in joins && BoundBy(j.text).Some? :: BoundBy(j.text).value
  }

  lemma {:induction false} UsedInOne(p: Piece)
    ensures UsedIn([p]) == match p
                           case Fixed(name) => Uses(name)
                           case Sql(text) => if '.' in text then {BeforeDot(text)} else {}
                           case Placeholder => {}
  {
    assert [p][..0] == [] && UsedIn([]) == {};
  }

  /** A text uses what its pieces use. */
  lemma {:induction false} UsedInWithin(f: Fragment, aliases: set<Alias>)
    requires forall i | 0 <= i < |f| :: UsedIn([f[i]]) <= aliases
    ensures UsedIn(f) <= aliases
  {
    if f != [] {
      UsedInWithin(f[..|f| - 1], aliases);
      UsedInOne(f[|f| - 1]);
    }
  }

  /** A join binds an alias, and uses those that are bound before it in its filter. */
  ghost predicate JoinScoped(joins: seq<Join>, k: nat)
    requires k < |joins|
  {
    BoundBy(joins[k].text).Some? && UsedIn(joins[k].text) <= {"ms"} + AllBound(joins[..k])
  }

  lemma {:induction false} BundleJoinUses(idx: nat, byId: bool, bundle: string)
    ensures UsedIn(BundleJoin(idx, byId, bundle).text) <= {"ms"}
    ensures BoundBy(BundleJoin(idx, byId, bundle).text) == Some("a" + Decimal.Str(idx))
  {
    var t := BundleJoin(idx, byId, bundle).text;
    DigitsHaveNoDot(idx);
    forall i | 0 <= i < |t| ensures UsedIn([t[i]]) <= {"ms"} {
      UsedInOne(t[i]);
    }
    UsedInWithin(t, {"ms"});
  }

  lemma {:induction false} DigitsHaveNoDot(n: nat)
    ensures '.' !in Decimal.Str(n)
  {
    var s := Decimal.Digits(n);
    assert forall i | 0 <= i < |s| :: Decimal.IsDigit(s[i]);
  }

  lemma {:induction false} PlainUses(name: FixedText)
    ensures UsedIn(Plain(name).text) == Uses(name)
    ensures !name.JoinAppsById? && !name.JoinAppsByName? ==> BoundBy(Plain(name).text) == Binds(name)
  {
    UsedInOne(Fixed(name));
  }

  /** The joins of a filter are in order, and its conditions use only what they bind. */
  ghost predicate FilterScoped(f: Filter) {
    && (forall k | 0 <= k < |Joins(f)| :: JoinScoped(Joins(f), k))
    && forall w | w in Wheres(f) :: UsedIn(w) <= {"ms"} + AllBound(Joins(f))
  }

  lemma {:induction false} JoinsScoped(f: Filter, k: nat)
    requires k < |Joins(f)|
    ensures JoinScoped(Joins(f), k)
  {
    if f.kind.Bundle? {
      BundleJoins(f);
      BundleJoinScoped(f.idx, f.kind.byId, f.kind.bundle);
    } else {
      PlainJoinScoped(f, k);
    }
  }

  lemma {:induction false} BundleJoins(f: Filter)
    requires f.kind.Bundle?
    ensures Joins(f) == [BundleJoin(f.idx, f.kind.byId, f.kind.bundle)]
  {
  }

  lemma {:induction false} BundleJoinScoped(idx: nat, byId: bool, bundle: string)
    ensures JoinScoped([BundleJoin(idx, byId, bundle)], 0)
  {
    BundleJoinUses(idx, byId, bundle);
  }

  lemma {:induction false} PlainJoinScoped(f: Filter, k: nat)
    requires !f.kind.Bundle? && k < |Joins(f)|
    ensures JoinScoped(Joins(f), k)
  {
    var joins := Joins(f);
    PlainJoins(f);
    assert joins[k] in joins;
    UsedInOne(joins[k].text[0]);
    if k == 1 {
      assert joins[..1][0] == joins[0];
      assert joins[0] in joins[..1];
      assert BoundBy(joins[0].text).value in AllBound(joins[..1]);
    }
  }

  lemma {:induction false} ColumnUses(f: Filter, alias: string, rest: string, w: Fragment)
    requires '.' !in alias && w in ColumnWheres(f, alias + "." + rest)
    ensures UsedIn(w) <= {alias}
  {
    var end := if f.value != NONE_VALUE then " = " else " is null";
    var text := alias + "." + rest + end;
    assert text == alias + "." + (rest + end);
    BeforeDotIs(alias, rest + end);
    assert text[|alias|] == '.' && w[0] == Sql(text);
    forall i | 0 <= i < |w| ensures UsedIn([w[i]]) <= {alias} {
      UsedInOne(w[i]);
    }
    UsedInWithin(w, {alias});
  }

  lemma {:induction false} ColumnScoped(f: Filter, alias: string, rest: string)
    requires '.' !in alias && Column(f) == alias + "." + rest && Wheres(f) == ColumnWheres(f, Column(f))
    requires alias == "ms" || exists j :: j in Joins(f) && BoundBy(j.text) == Some(alias)
    ensures forall w | w in Wheres(f) :: UsedIn(w) <= {"ms"} + AllBound(Joins(f))
  {
    forall w | w in Wheres(f) ensures UsedIn(w) <= {"ms"} + AllBound(Joins(f)) {
      ColumnUses(f, alias, rest, w);
    }
  }

  /** The joins and the conditions of every filter. */
  lemma {:induction false} EveryFilterScoped(f: Filter)
    ensures FilterScoped(f)
  {
    forall k | 0 <= k < |Joins(f)| ensures JoinScoped(Joins(f), k) {
      JoinsScoped(f, k);
    }
    ConditionsScoped(f);
  }

  lemma {:induction false} ConditionsScoped(f: Filter)
    ensures forall w | w in Wheres(f) :: UsedIn(w) <= {"ms"} + AllBound(Joins(f))
  {
    if f.kind.DateTime? {
      DateTimeScoped(f);
    } else if f.kind.SerialNumber? || f.kind.ComputerName? || f.kind.PrincipalUserName? {
      NamesScoped(f);
    } else {
      ColumnsScoped(f);
    }
  }

  predicate ComparesColumn(f: Filter) {
    !f.kind.DateTime? && !f.kind.SerialNumber? && !f.kind.ComputerName? && !f.kind.PrincipalUserName?
  }

  /** The table and the column that a filter compares. */
  function ColumnParts(f: Filter): (Alias, string)
    requires ComparesColumn(f)
  {
    match f.kind
    case Source => ("src", "id")
    case MetaBusinessUnit => ("mbu", "id")
    case Tag => ("t", "id")
    case IncidentSeverity => ("mis", "max_incident_severity")
    case Type => ("ms", "type")
    case Platform => ("ms", "platform")
    case HardwareModel => ("si", "hardware_model")
    case OSVersion => ("osv", "id")
    case MachineGroup => ("mg", "id")
    case OSXAppInstance => ("mosai", "osxappinstance_id")
    case Bundle(_, _) => ("a" + Decimal.Str(f.idx), "id")
  }

  lemma {:induction false} ColumnIs(f: Filter)
    requires ComparesColumn(f)
    ensures '.' !in ColumnParts(f).0 && Column(f) == ColumnParts(f).0 + "." + ColumnParts(f).1
  {
    match f.kind
    case IncidentSeverity => SeverityColumn();
    case HardwareModel => ModelColumn();
    case OSXAppInstance => AppColumn();
    case Bundle(_, _) =>
      DigitsHaveNoDot(f.idx);
      assert ".id" == "." + "id";
    case _ => ShortColumn(f);
  }

  lemma {:induction false} SeverityColumn()
    ensures "mis.max_incident_severity" == "mis" + "." + "max_incident_severity"
  {
  }

  lemma {:induction false} ModelColumn()
    ensures "si.hardware_model" == "si" + "." + "hardware_model"
  {
  }

  lemma {:induction false} AppColumn()
    ensures "mosai.osxappinstance_id" == "mosai" + "." + "osxappinstance_id"
  {
  }

  lemma {:induction false} ShortColumn(f: Filter)
    requires f.kind in {Source, MetaBusinessUnit, Tag, Type, Platform, OSVersion, MachineGroup}
    ensures '.' !in ColumnParts(f).0 && Column(f) == ColumnParts(f).0 + "." + ColumnParts(f).1
  {
  }

  lemma {:induction false} ColumnBound(f: Filter)
    requires ComparesColumn(f) && ColumnParts(f).0 != "ms"
    ensures exists j :: j in Joins(f) && BoundBy(j.text) == Some(ColumnParts(f).0)
  {
    if f.kind.Bundle? {
      BundleJoinUses(f.idx, f.kind.byId, f.kind.bundle);
      assert BundleJoin(f.idx, f.kind.byId, f.kind.bundle) in Joins(f);
    } else {
      PlainBound(f);
    }
  }

  lemma {:induction false} PlainBound(f: Filter)
    requires ComparesColumn(f) && !f.kind.Bundle? && ColumnParts(f).0 != "ms"
    ensures exists j :: j in Joins(f) && BoundBy(j.text) == Some(ColumnParts(f).0)
  {
    var j := Joins(f)[if f.kind.MetaBusinessUnit? || f.kind.MachineGroup? then 1 else 0];
    assert j in Joins(f) && BoundBy(j.text) == Some(ColumnParts(f).0);
  }

  lemma {:induction false} ColumnsScoped(f: Filter)
    requires ComparesColumn(f)
    ensures forall w | w in Wheres(f) :: UsedIn(w) <= {"ms"} + AllBound(Joins(f))
  {
    ColumnIs(f);
    if ColumnParts(f).0 != "ms" {
      ColumnBound(f);
    }
    assert Wheres(f) == ColumnWheres(f, Column(f));
    ColumnScoped(f, ColumnParts(f).0, ColumnParts(f).1);
  }

  lemma {:induction false} NamesScoped(f: Filter)
    requires f.kind.SerialNumber? || f.kind.ComputerName? || f.kind.PrincipalUserName?
    ensures forall w | w in Wheres(f) :: UsedIn(w) <= {"ms"} + AllBound(Joins(f))
  {
    var alias := if f.kind.SerialNumber? then "ms" else if f.kind.ComputerName? then "si" else "pu";
    if !f.kind.SerialNumber? {
      var j := Joins(f)[0];
      assert j in Joins(f) && BoundBy(j.text) == Some(alias);
    }
    forall w | w in Wheres(f) ensures UsedIn(w) <= {"ms"} + AllBound(Joins(f)) {
      forall i | 0 <= i < |w| ensures UsedIn([w[i]]) <= {alias} {
        UsedInOne(w[i]);
      }
      UsedInWithin(w, {alias});
    }
  }

  lemma {:induction false} DateTimeScoped(f: Filter)
    requires f.kind.DateTime?
    ensures forall w | w in Wheres(f) :: UsedIn(w) <= {"ms"} + AllBound(Joins(f))
  {
    forall w | w in Wheres(f) ensures UsedIn(w) <= {"ms"} + AllBound(Joins(f)) {
      forall i | 0 <= i < |w| ensures UsedIn([w[i]]) <= {"ms", "dtfms"} {
        UsedInOne(w[i]);
      }
      UsedInWithin(w, {"ms", "dtfms"});
      var j := Joins(f)[0];
      assert j in Joins(f) && BoundBy(j.text) == Some("dtfms");
    }
  }

  // ----- the aliases of a whole query -----

  ghost function BoundByAll(joins: seq<OwnedJoin>): set<Alias> {
    set j | j in joins && BoundBy(j.join.text).Some? :: BoundBy(j.join.text).value
  }

  /** Each join uses what is bound before it. */
  ghost predicate InOrder(joins: seq<OwnedJoin>) {
    forall k | 0 <= k < |joins| ::
      BoundBy(joins[k].join.text).Some? && UsedIn(joins[k].join.text) <= {"ms"} + BoundByAll(joins[..k])
  }

  lemma {:induction false} InOrderSnoc(front: seq<OwnedJoin>, last: OwnedJoin)
    ensures InOrder(front + [last]) <==>
            InOrder(front) && BoundBy(last.join.text).Some? && UsedIn(last.join.text) <= {"ms"} + BoundByAll(front)
  {
    var all := front + [last];
    assert all[..|front|] == front && all[|front|] == last;
    assert forall k | 0 <= k < |front| :: all[..k] == front[..k] && all[k] == front[k];
  }

  lemma {:induction false} OwnedInOrder(before: seq<OwnedJoin>, f: Filter, n: nat)
    requires InOrder(before) && n <= |Joins(f)|
    ensures InOrder(before + Owned(f, Joins(f))[..n])
  {
    if n == 0 {
      assert before + Owned(f, Joins(f))[..0] == before;
    } else {
      var all := Owned(f, Joins(f));
      OwnedInOrder(before, f, n - 1);
      TakeOneMore(before, all, n);
      InOrderSnoc(before + all[..n - 1], all[n - 1]);
      JoinsScoped(f, n - 1);
      OwnedBound(before, f, n - 1);
    }
  }

  lemma {:induction false} TakeOneMore<T>(before: seq<T>, all: seq<T>, n: nat)
    requires 0 < n <= |all|
    ensures before + all[..n] == (before + all[..n - 1]) + [all[n - 1]]
  {
  }

  lemma {:induction false} OwnedBound(before: seq<OwnedJoin>, f: Filter, n: nat)
    requires n <= |Joins(f)|
    ensures AllBound(Joins(f)[..n]) <= BoundByAll(before + Owned(f, Joins(f))[..n])
  {
    var all, bound := Owned(f, Joins(f)), AllBound(Joins(f)[..n]);
    forall alias | alias in bound ensures alias in BoundByAll(before + all[..n]) {
      var j :| j in Joins(f)[..n] && BoundBy(j.text) == Some(alias);
      var k :| 0 <= k < n && Joins(f)[k] == j;
      assert all[..n][k].join == j && all[..n][k] in before + all[..n];
    }
  }

  lemma {:induction false} AllInOrder(filters: seq<Filter>)
    ensures InOrder(AllJoins(filters))
  {
    if filters != [] {
      var last := filters[|filters| - 1];
      AllInOrder(filters[..|filters| - 1]);
      OwnedInOrder(AllJoins(filters[..|filters| - 1]), last, |Joins(last)|);
      assert Owned(last, Joins(last))[..|Joins(last)|] == Owned(last, Joins(last));
    }
  }

  /** Of joins in order, the first of each text are in order, and bind the same. */
  lemma {:induction false} UniqueInOrder(joins: seq<OwnedJoin>)
    requires InOrder(joins) && UniqueJoins(joins).Some?
    ensures InOrder(UniqueJoins(joins).value)
    ensures BoundByAll(UniqueJoins(joins).value) == BoundByAll(joins)
  {
    if joins == [] {
      assert UniqueJoins(joins).value == joins;
    } else {
      var front, last := joins[..|joins| - 1], joins[|joins| - 1];
      FrontAndLast(joins);
      InOrderSnoc(front, last);
      UniqueSplit(front, last);
      UniqueInOrder(front);
      AddInOrder(front, UniqueJoins(front).value, last);
    }
  }

  lemma {:induction false} FrontAndLast<T>(s: seq<T>)
    requires s != []
    ensures s == s[..|s| - 1] + [s[|s| - 1]]
  {
  }

  lemma {:induction false} UniqueSplit(front: seq<OwnedJoin>, last: OwnedJoin)
    requires UniqueJoins(front + [last]).Some?
    ensures UniqueJoins(front).Some? && UniqueJoins(front + [last]) == AddJoin(UniqueJoins(front).value, last)
  {
    assert (front + [last])[..|front|] == front;
  }

  lemma {:induction false} AddInOrder(front: seq<OwnedJoin>, unique: seq<OwnedJoin>, last: OwnedJoin)
    requires InOrder(front + [last]) && InOrder(unique) && BoundByAll(unique) == BoundByAll(front)
    requires AddJoin(unique, last).Some?
    ensures InOrder(AddJoin(unique, last).value)
    ensures BoundByAll(AddJoin(unique, last).value) == BoundByAll(front + [last])
  {
    InOrderSnoc(front, last);
    BoundByMore(front, last);
    FindTextIs(unique, last.join.text);
    if FindText(unique, last.join.text).None? {
      InOrderSnoc(unique, last);
      BoundByMore(unique, last);
    } else {
      var known := FindText(unique, last.join.text).value;
      assert known in unique && BoundBy(known.join.text).value in BoundByAll(unique);
      assert BoundByAll(front) + {BoundBy(last.join.text).value} == BoundByAll(front);
    }
  }

  lemma {:induction false} BoundByMore(front: seq<OwnedJoin>, last: OwnedJoin)
    ensures BoundByAll(front + [last]) ==
            BoundByAll(front) + if BoundBy(last.join.text).Some? then {BoundBy(last.join.text).value} else {}
  {
    var all := front + [last];
    assert forall j :: j in all <==> j in front || j == last;
  }

  /** Different texts bind different aliases. */
  lemma {:induction false} DifferentAliases(filters: seq<Filter>, a: OwnedJoin, b: OwnedJoin)
    requires Numbered(filters) && GoodJoin(filters, a) && GoodJoin(filters, b) && a.join.text != b.join.text
    ensures BoundBy(a.join.text).Some? && BoundBy(b.join.text).Some?
    ensures BoundBy(a.join.text) != BoundBy(b.join.text)
  {
    var i :| 0 <= i < |filters| && a.owner == FilterNumber(filters[i].idx) && a.join in Joins(filters[i]);
    var k :| 0 <= k < |filters| && b.owner == FilterNumber(filters[k].idx) && b.join in Joins(filters[k]);
    AliasOf(filters[i], a.join);
    AliasOf(filters[k], b.join);
    if filters[i].kind.Bundle? && filters[k].kind.Bundle? {
      if i != k && BoundBy(a.join.text) == BoundBy(b.join.text) {
        assert ("a" + Decimal.Str(i))[1..] == Decimal.Str(i) && ("a" + Decimal.Str(k))[1..] == Decimal.Str(k);
        Decimal.StrInjective(i, k);
      }
    } else if !filters[i].kind.Bundle? && !filters[k].kind.Bundle? {
      PlainJoins(filters[i]);
      PlainJoins(filters[k]);
      if BoundBy(a.join.text) == BoundBy(b.join.text) {
        SameNameSameText(a.join.text, b.join.text);
      }
    }
  }

  lemma {:induction false} SameNameSameText(a: Fragment, b: Fragment)
    requires |a| == 1 && |b| == 1 && a[0].Fixed? && b[0].Fixed?
    requires Binds(a[0].name).Some? && Binds(a[0].name) == Binds(b[0].name)
    ensures a == b
  {
    assert a == [a[0]] && b == [b[0]];
  }

  /** The alias of a bundle is "a" and a number, the others begin otherwise. */
  lemma {:induction false} AliasOf(f: Filter, j: Join)
    requires j in Joins(f)
    ensures BoundBy(j.text).Some?
    ensures if f.kind.Bundle? then BoundBy(j.text) == Some("a" + Decimal.Str(f.idx))
            else |j.text| == 1 && j.text[0].Fixed? && BoundBy(j.text) == Binds(j.text[0].name) &&
                 BoundBy(j.text).value[0] != 'a'
  {
    if f.kind.Bundle? {
      BundleJoins(f);
      BundleJoinUses(f.idx, f.kind.byId, f.kind.bundle);
    } else {
      PlainJoins(f);
      PlainAlias(f, j);
    }
  }

  lemma {:induction false} PlainAlias(f: Filter, j: Join)
    requires !f.kind.Bundle? && j in Joins(f)
    requires |j.text| == 1 && j.text[0].Fixed? && j.text == [j.text[0]] && j.args == []
    ensures BoundBy(j.text).Some? && BoundBy(j.text) == Binds(j.text[0].name) && BoundBy(j.text).value[0] != 'a'
  {
  }

  /** In the query for any list of filters, every alias is bound by one join, each join uses
      aliases bound before it, and the conditions use those that are bound. */
  lemma {:induction false} QueryScoped(filters: seq<Filter>)
    requires Numbered(filters)
    ensures UniqueJoins(AllJoins(filters)).Some?
    ensures var joins := UniqueJoins(AllJoins(filters)).value;
            && InOrder(joins)
            && (forall i, k | 0 <= i < k < |joins| :: BoundBy(joins[i].join.text) != BoundBy(joins[k].join.text))
            && forall f, w | f in filters && w in Wheres(f) :: UsedIn(w) <= {"ms"} + BoundByAll(joins)
  {
    JoinsOnce(filters);
    AllInOrder(filters);
    UniqueInOrder(AllJoins(filters));
    var joins := UniqueJoins(AllJoins(filters)).value;
    forall i, k | 0 <= i < k < |joins| ensures BoundBy(joins[i].join.text) != BoundBy(joins[k].join.text) {
      assert joins[i] in joins && joins[k] in joins;
      DifferentAliases(filters, joins[i], joins[k]);
    }
    forall f, w | f in filters && w in Wheres(f) ensures UsedIn(w) <= {"ms"} + BoundByAll(joins) {
      ConditionsScoped(f);
      FilterBound(filters, f);
    }
  }

  lemma {:induction false} FilterBound(filters: seq<Filter>, f: Filter)
    requires f in filters
    ensures AllBound(Joins(f)) <= BoundByAll(AllJoins(filters))
  {
    var front, last := filters[..|filters| - 1], filters[|filters| - 1];
    assert filters == front + [last];
    if f in front {
      FilterBound(front, f);
    } else {
      forall j | j in Joins(f) ensures exists o :: o in AllJoins(filters) && o.join == j {
        var k :| 0 <= k < |Joins(f)| && Joins(f)[k] == j;
        assert Owned(f, Joins(f))[k].join == j && Owned(f, Joins(f))[k] in AllJoins(filters);
      }
    }
  }

  // ----- filters -----

  /** The filter classes, by number; bundle filters are of one class. */
  function ClassOf(kind: Kind): nat {
    match kind
    case DateTime => 0
    case Source => 1
    case MetaBusinessUnit => 2
    case Tag => 3
    case IncidentSeverity => 4
    case Type => 5
    case Platform => 6
    case HardwareModel => 7
    case OSVersion => 8
    case SerialNumber => 9
    case ComputerName => 10
    case PrincipalUserName => 11
    case MachineGroup => 12
    case OSXAppInstance => 13
    case Bundle(_, _) => 14
  }

  lemma {:induction false} SameClassIs(a: Kind, b: Kind)
    ensures SameClass(a, b) <==> ClassOf(a) == ClassOf(b)
  {
  }

  /** A filter keeps its text, without the white space around it where names are looked for;
      a bundle filter needs a bundle, and a date filter a text that is read as a moment. */
  lemma {:induction false} NewFilterIs(idx: nat, kind: Kind, value: string, strptime: (string, string) -> Option<int>)
    ensures var r := NewFilter(idx, kind, value, strptime);
            && (r.None? <==>
                  || kind == Bundle(true, "") || kind == Bundle(false, "")
                  || (kind == DateTime && value != "" && strptime("%Y-%m-%d %H:%M:%S", value) == None))
            && (r.Some? ==>
                  && r.value.idx == idx && r.value.kind == kind
                  && (kind == DateTime && value != "" ==>
                        r.value.moment == strptime("%Y-%m-%d %H:%M:%S", value))
                  && if kind in {SerialNumber, ComputerName, PrincipalUserName} then
                       exists before: string, after: string ::
                         && value == before + r.value.value + after
                         && QuotedWords.AllSpace(before) && QuotedWords.AllSpace(after)
                         && (r.value.value == "" || QuotedWords.Trimmed(r.value.value))
                     else r.value.value == value)
  {
    var before, after := QuotedWords.StripSplits(value);
  }
}
