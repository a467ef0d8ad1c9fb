/** The SQL builder of machine snapshot queries: every filter contributes joins and
    conditions to the text, and arguments to a list, which must line up. The SQL itself
    is not interpreted. */
module MachineQueries {
  import opened Wrappers
  import Decimal
  import QuotedWords

  // ----- SQL text -----

  /** The longer texts of the builder, by name. */
  datatype FixedText =
    | JoinPreviousSnapshots | JoinCurrentSnapshots | JoinSources | JoinBusinessUnits | JoinMetaBusinessUnits
    | JoinTags | JoinTagBusinessUnits | JoinIncidents | JoinSystemInfo | JoinOSVersions | JoinPrincipalUsers
    | JoinMachineGroupLinks | JoinMachineGroups | JoinAppInstances
    | JoinAppsById | JoinAppsByName  // up to the placeholder for the bundle
    | WhereSameSerialNumber | WhereSameSource | WhereNewer | WhereNoNewer | WhereBefore
    | WhereSerialNumberLike | WhereComputerName | WhereNoComputerName
    | WherePrincipalName | OrDisplayName | WhereNoPrincipalName
    | FromSnapshots | SelectMachines | GroupMachines

  /** Text, or a "%s". */
  datatype Piece = Sql(text: string) | Fixed(name: FixedText) | Placeholder
  type Fragment = seq<Piece>

  function Holes(f: Fragment): nat {
    if f == [] then 0 else Holes(f[..|f| - 1]) + if f[|f| - 1].Placeholder? then 1 else 0
  }

  datatype ArgValue = Value(text: string) | Like(text: string) | Moment(n: int) | Number(n: int)

  /** Who a part of the query or an argument comes from. */
  datatype Owner = FilterNumber(idx: nat) | Query

  datatype Part = Part(owner: Owner, fragment: Fragment)
  datatype Arg = Arg(owner: Owner, value: ArgValue)

  // ----- filters -----

  datatype Kind =
    | DateTime | Source | MetaBusinessUnit | Tag | IncidentSeverity | Type | Platform | HardwareModel | OSVersion
    | SerialNumber | ComputerName | PrincipalUserName | MachineGroup | OSXAppInstance
    | Bundle(byId: bool, bundle: string)

  /** A filter after its constructor; an empty value is no value. */
  datatype Filter = Filter(idx: nat, kind: Kind, value: string, moment: Option<int>)

  const NONE_VALUE := "\U{2400}"

  /** `isinstance`: bundle filters are of the same class whatever their bundle. */
  predicate SameClass(a: Kind, b: Kind) {
    a == b || (a.Bundle? && b.Bundle?)
  }

  predicate StripsValue(kind: Kind) {
    kind.SerialNumber? || kind.ComputerName? || kind.PrincipalUserName?
  }

  /** The constructors. `strptime` is called with the format of a datetime filter as its
      text, and the value as its format. */
  function NewFilter(idx: nat, kind: Kind, value: string, strptime: (string, string) -> Option<int>): Option<Filter> {
    if kind.Bundle? && kind.bundle == "" then None
    else if kind.DateTime? && value != "" then
      var moment := strptime("%Y-%m-%d %H:%M:%S", value);
      if moment.None? then None else Some(Filter(idx, kind, value, moment))
    else Some(Filter(idx, kind, if StripsValue(kind) then QuotedWords.Strip(value) else value, None))
  }

  /** A join and its arguments. */
  datatype Join = Join(text: Fragment, args: seq<ArgValue>)

  function Plain(name: FixedText): Join {
    Join([Fixed(name)], [])
  }

  function BundleJoin(idx: nat, byId: bool, bundle: string): Join {
    Join([Fixed(if byId then JoinAppsById else JoinAppsByName), Placeholder,
          Sql(") a"), Sql(Decimal.Str(idx)), Sql(" on TRUE")],
         [Value(bundle)])
  }

  function Joins(f: Filter): seq<Join> {
    match f.kind
    case DateTime => [Plain(if f.value != "" then JoinPreviousSnapshots else JoinCurrentSnapshots)]
    case Source => [Plain(JoinSources)]
    case MetaBusinessUnit => [Plain(JoinBusinessUnits), Plain(JoinMetaBusinessUnits)]
    case Tag => [Plain(JoinTags), Plain(JoinTagBusinessUnits)]
    case IncidentSeverity => [Plain(JoinIncidents)]
    case Type => []
    case Platform => []
    case HardwareModel => [Plain(JoinSystemInfo)]
    case OSVersion => [Plain(JoinOSVersions)]
    case SerialNumber => []
    case ComputerName => [Plain(JoinSystemInfo)]
    case PrincipalUserName => [Plain(JoinPrincipalUsers)]
    case MachineGroup => [Plain(JoinMachineGroupLinks), Plain(JoinMachineGroups)]
    case OSXAppInstance => [Plain(JoinAppInstances)]
    case Bundle(byId, bundle) => [BundleJoin(f.idx, byId, bundle)]
  }

  /** The condition on a column: equal to the value, or null for the none value. */
  function ColumnWheres(f: Filter, column: string): seq<Fragment> {
    if f.value == "" then []
    else if f.value != NONE_VALUE then [[Sql(column + " = "), Placeholder]]
    else [[Sql(column + " is null")]]
  }

  function Wheres(f: Filter): seq<Fragment> {
    match f.kind
    case DateTime =>
      if f.value == "" then []
      else
        [[Fixed(WhereSameSerialNumber)], [Fixed(WhereSameSource)], [Fixed(WhereNewer)], [Fixed(WhereNoNewer)],
         [Fixed(WhereBefore), Placeholder]]
    case Source => ColumnWheres(f, "src.id")
    case MetaBusinessUnit => ColumnWheres(f, "mbu.id")
    case Tag => ColumnWheres(f, "t.id")
    case IncidentSeverity => ColumnWheres(f, "mis.max_incident_severity")
    case Type => ColumnWheres(f, "ms.type")
    case Platform => ColumnWheres(f, "ms.platform")
    case HardwareModel => ColumnWheres(f, "si.hardware_model")
    case OSVersion => ColumnWheres(f, "osv.id")
    case SerialNumber =>
      if f.value == "" then [] else [[Fixed(WhereSerialNumberLike), Placeholder, Sql(")")]]
    case ComputerName =>
      if f.value == "" then []
      else if f.value != NONE_VALUE then [[Fixed(WhereComputerName), Placeholder]]
      else [[Fixed(WhereNoComputerName)]]
    case PrincipalUserName =>
      if f.value == "" then []
      else if f.value != NONE_VALUE then
        [[Fixed(WherePrincipalName), Placeholder, Fixed(OrDisplayName), Placeholder, Sql(")")]]
      else [[Fixed(WhereNoPrincipalName)]]
    case MachineGroup => ColumnWheres(f, "mg.id")
    case OSXAppInstance => ColumnWheres(f, "mosai.osxappinstance_id")
    case Bundle(_, _) => ColumnWheres(f, "a" + Decimal.Str(f.idx) + ".id")
  }

  function WhereArgs(f: Filter): seq<ArgValue> {
    if f.kind.DateTime? then if f.value != "" then [Moment(if f.moment.Some? then f.moment.value else 0)] else []
    else if f.kind.SerialNumber? then if f.value != "" then [Like(f.value)] else []
    else if f.value == "" || f.value == NONE_VALUE then []
    else if f.kind.PrincipalUserName? then [Value(f.value), Value(f.value)]
    else [Value(f.value)]
  }

  // ----- unique joins -----

  /** A join with the filter it comes from. */
  datatype OwnedJoin = OwnedJoin(owner: Owner, join: Join)

  function Owned(f: Filter, joins: seq<Join>): (r: seq<OwnedJoin>)
    ensures |r| == |joins| && forall i | 0 <= i < |r| :: r[i] == OwnedJoin(FilterNumber(f.idx), joins[i])
  {
    if joins == [] then [] else Owned(f, joins[..|joins| - 1]) + [OwnedJoin(FilterNumber(f.idx), joins[|joins| - 1])]
  }

  function AllJoins(filters: seq<Filter>): seq<OwnedJoin> {
    if filters == [] then []
    else AllJoins(filters[..|filters| - 1]) + Owned(filters[|filters| - 1], Joins(filters[|filters| - 1]))
  }

  function FindText(joins: seq<OwnedJoin>, text: Fragment): Option<OwnedJoin> {
    if joins == [] then None
    else if joins[|joins| - 1].join.text == text then Some(joins[|joins| - 1])
    else FindText(joins[..|joins| - 1], text)
  }

  /** One more join: kept if its text is new, an error if the text is known with other
      arguments. */
  function AddJoin(unique: seq<OwnedJoin>, j: OwnedJoin): Option<seq<OwnedJoin>> {
    match FindText(unique, j.join.text)
    case None => Some(unique + [j])
    case Some(known) => if known.join.args == j.join.args then Some(unique) else None
  }

  function UniqueJoins(joins: seq<OwnedJoin>): Option<seq<OwnedJoin>> {
    if joins == [] then Some([])
    else
      match UniqueJoins(joins[..|joins| - 1])
      case None => None
      case Some(unique) => AddJoin(unique, joins[|joins| - 1])
  }

  // ----- the query -----

  /** The text in parts, and the arguments in order. */
  datatype Built = Built(parts: seq<Part>, args: seq<Arg>)

  function ArgsOf(owner: Owner, values: seq<ArgValue>): (r: seq<Arg>)
    ensures |r| == |values| && forall i | 0 <= i < |r| :: r[i] == Arg(owner, values[i])
  {
    if values == [] then [] else ArgsOf(owner, values[..|values| - 1]) + [Arg(owner, values[|values| - 1])]
  }

  function JoinPart(b: Built, j: OwnedJoin): Built {
    Built(b.parts + [Part(j.owner, j.join.text)], b.args + ArgsOf(j.owner, j.join.args))
  }

  function WithJoins(b: Built, joins: seq<OwnedJoin>): Built {
    if joins == [] then b else JoinPart(WithJoins(b, joins[..|joins| - 1]), joins[|joins| - 1])
  }

  function PartsOf(owner: Owner, fragments: seq<Fragment>): (r: seq<Part>)
    ensures |r| == |fragments| && forall i | 0 <= i < |r| :: r[i] == Part(owner, fragments[i])
  {
    if fragments == [] then []
    else PartsOf(owner, fragments[..|fragments| - 1]) +
         [Part(owner, fragments[|fragments| - 1])]
  }

  function AddConditions(b: Built, f: Filter): Built {
    Built(b.parts + PartsOf(FilterNumber(f.idx), Wheres(f)), b.args + ArgsOf(FilterNumber(f.idx), WhereArgs(f)))
  }

  /** The conditions of the filters, and their arguments. */
  function Conditions(filters: seq<Filter>): Built {
    if filters == [] then Built([], []) else AddConditions(Conditions(filters[..|filters| - 1]), filters[|filters| - 1])
  }

  /** `" AND ".join(wheres)` */
  function JoinedByAnd(parts: seq<Part>): seq<Part> {
    if |parts| <= 1 then parts
    else JoinedByAnd(parts[..|parts| - 1]) + [Part(Query, [Sql(" AND ")]), parts[|parts| - 1]]
  }

  function WithConditions(b: Built, conditions: Built): Built {
    var where := [Part(Query, [Sql("\nWHERE\n")])];
    Built(b.parts + (if conditions.parts == [] then [] else where + JoinedByAnd(conditions.parts)),
          b.args + conditions.args)
  }

  /** The select list comes first, and a GROUP BY clause last: `groupBy` holds it with the
      new line before it, or is empty. */
  function SelectFrom(select: string): seq<Part> {
    [Part(Query, [Sql("select\n"), Sql(select), Fixed(FromSnapshots)])]
  }

  function LimitOffset(page: int, paginateBy: int): Built {
    var limit := if paginateBy > 1 then paginateBy else 1;
    var offset := if (page - 1) * limit > 0 then (page - 1) * limit else 0;
    Built([Part(Query, [Sql(" limit "), Placeholder, Sql(" offset "), Placeholder])],
          [Arg(Query, Number(limit)), Arg(Query, Number(offset))])
  }

  /** `_build_grouping_query_with_args`, for the given select list and grouping sets */
  function GroupingQuery(filters: seq<Filter>, select: string, groupBy: string): Option<Built> {
    match UniqueJoins(AllJoins(filters))
    case None => None
    case Some(unique) =>
      var b := WithConditions(WithJoins(Built(SelectFrom(select), []), unique), Conditions(filters));
      Some(Built(b.parts + [Part(Query, [Sql(groupBy)])], b.args))
  }

  function Outer(b: Built, paginate: bool, page: int, paginateBy: int): Built {
    var pages := if paginate then LimitOffset(page, paginateBy) else Built([], []);
    Built([Part(Query, [Fixed(SelectMachines)])]
          + b.parts
          + [Part(Query, [Fixed(GroupMachines)])]
          + pages.parts,
          b.args + pages.args)
  }

  /** `_build_fetching_query_with_args`, for the given select list and group by list */
  function FetchingQuery(filters: seq<Filter>, select: string, groupBy: string, paginate: bool, page: int,
      paginateBy: int): Option<Built> {
    match GroupingQuery(filters, select, groupBy)
    case None => None
    case Some(b) => Some(Outer(b, paginate, page, paginateBy))
  }

  class MSQuery {
    const strptime: (string, string) -> Option<int>
    const paginateBy: int
    var filters: seq<Filter>
    var page: int

    constructor (page: int, paginateBy: int, strptime: (string, string) -> Option<int>)
      ensures this.page == page && this.paginateBy == paginateBy && this.strptime == strptime && filters == []
    {
      this.page, this.paginateBy, this.strptime, filters := page, paginateBy, strptime, [];
    }

    /** Filters are numbered by their place. */
    ghost predicate Valid()
      reads this
    {
      Numbered(filters)
    }

    method AddFilter(kind: Kind, value: string) returns (ok: bool)
      requires Valid()
      modifies this`filters
      ensures Valid()
      ensures match NewFilter(|old(filters)|, kind, value, strptime)
              case None => !ok && filters == old(filters)
              case Some(f) => ok && filters == old(filters) + [f]
    {
      var f := NewFilter(|filters|, kind, value, strptime);
      ok := f.Some?;
      if ok {
        filters := filters + [f.value];
      }
    }

    /** Replaces the first filter of the class, or adds one. */
    method ForceFilter(kind: Kind, value: string) returns (ok: bool)
      requires Valid()
      modifies this`filters
      ensures Valid()
      ensures ok <==> NewFilter(0, kind, value, strptime).Some?
      ensures !ok ==> filters == old(filters)
      ensures ok ==>
                if forall k | 0 <= k < |old(filters)| :: !SameClass(old(filters)[k].kind, kind) then
                  NewFilter(|old(filters)|, kind, value, strptime).Some? &&
                      filters == old(filters) + [NewFilter(|old(filters)|, kind, value, strptime).value]
                else
                  exists i :: 0 <= i < |old(filters)| && SameClass(old(filters)[i].kind, kind)
                    && (forall k | 0 <= k < i :: !SameClass(old(filters)[k].kind, kind))
                    && NewFilter(i, kind, value, strptime).Some? &&
                        filters == old(filters)[i := NewFilter(i, kind, value, strptime).value]
    {
      var i := 0;
      while i < |filters| && !SameClass(filters[i].kind, kind)
        invariant i <= |filters| && forall k | 0 <= k < i :: !SameClass(filters[k].kind, kind)
      {
        i := i + 1;
      }
      if i == |filters| {
        ok := AddFilter(kind, value);
      } else {
        var f := NewFilter(filters[i].idx, kind, value, strptime);
        ok := f.Some?;
        if ok {
          filters := filters[i := f.value];
        }
      }
    }

    /** `_iter_unique_joins_with_args` */
    method UniqueJoinsWithArgs() returns (r: Option<seq<OwnedJoin>>)
      ensures r == UniqueJoins(AllJoins(filters))
    {
      var unique := [];
      for i := 0 to |filters|
        invariant UniqueJoins(AllJoins(filters[..i])) == Some(unique)
      {
        var added := AddFilterJoins(filters, i, unique);
        if added.None? {
          UniqueFailsLater(filters, i + 1);
          return None;
        }
        unique := added.value;
      }
      assert filters[..|filters|] == filters;
      r := Some(unique);
    }

    /** `_build_grouping_query_with_args` */
    method BuildGroupingQueryWithArgs(select: string, groupBy: string) returns (r: Option<Built>)
      ensures r == GroupingQuery(filters, select, groupBy)
    {
      var joins := UniqueJoinsWithArgs();
      if joins.None? {
        return None;
      }
      var query := AppendJoins(Built(SelectFrom(select), []), joins.value);
      var wheres := CollectConditions(filters);
      query := WithConditions(query, wheres);
      r := Some(Built(query.parts + [Part(Query, [Sql(groupBy)])], query.args));
    }

    /** `_build_fetching_query_with_args` */
    method BuildFetchingQueryWithArgs(select: string, groupBy: string, paginate: bool) returns (r: Option<Built>)
      ensures r == FetchingQuery(filters, select, groupBy, paginate, page, paginateBy)
    {
      var inner := BuildGroupingQueryWithArgs(select, groupBy);
      if inner.None? {
        return None;
      }
      r := Some(Outer(inner.value, paginate, page, paginateBy));
    }
  }

  method CollectConditions(filters: seq<Filter>) returns (wheres: Built)
    ensures wheres == Conditions(filters)
  {
    wheres := Built([], []);
    for i := 0 to |filters|
      invariant wheres == Conditions(filters[..i])
    {
      assert filters[..i + 1][..i] == filters[..i];
      wheres := AddConditions(wheres, filters[i]);
    }
    assert filters[..|filters|] == filters;
  }

  method AppendJoins(start: Built, joins: seq<OwnedJoin>) returns (b: Built)
    ensures b == WithJoins(start, joins)
  {
    b := start;
    for i := 0 to |joins|
      invariant b == WithJoins(start, joins[..i])
    {
      assert joins[..i + 1][..i] == joins[..i];
      b := JoinPart(b, joins[i]);
    }
    assert joins[..|joins|] == joins;
  }

  /** The joins of one filter more. */
  method AddFilterJoins(filters: seq<Filter>, i: nat, known: seq<OwnedJoin>) returns (r: Option<seq<OwnedJoin>>)
    requires i < |filters| && UniqueJoins(AllJoins(filters[..i])) == Some(known)
    ensures r == UniqueJoins(AllJoins(filters[..i + 1]))
  {
    assert filters[..i + 1][..i] == filters[..i];
    r := AddJoins(AllJoins(filters[..i]), known, Owned(filters[i], Joins(filters[i])));
  }

  method AddJoins(ghost seen: seq<OwnedJoin>, known: seq<OwnedJoin>,
      joins: seq<OwnedJoin>) returns (r: Option<seq<OwnedJoin>>)
    requires UniqueJoins(seen) == Some(known)
    ensures r == UniqueJoins(seen + joins)
  {
    var unique := known;
    assert seen + joins[..0] == seen;
    for k := 0 to |joins|
      invariant UniqueJoins(seen + joins[..k]) == Some(unique)
    {
      OneMoreJoin(seen, joins, k);
      var next := AddJoin(unique, joins[k]);
      if next.None? {
        UniqueFails(seen + joins, |seen| + k + 1);
        return None;
      }
      unique := next.value;
    }
    assert joins[..|joins|] == joins;
    r := Some(unique);
  }

  lemma {:induction false} OneMoreJoin(seen: seq<OwnedJoin>, joins: seq<OwnedJoin>, k: nat)
    requires k < |joins|
    ensures var now := seen + joins[..k + 1];
            now[..|now| - 1] == seen + joins[..k] && now[|now| - 1] == joins[k] &&
                (seen + joins)[..|seen| + k + 1] == now
  {
  }

  ghost predicate Numbered(filters: seq<Filter>) {
    forall i | 0 <= i < |filters| :: filters[i].idx == i
  }

  lemma {:induction false} UniqueFails(joins: seq<OwnedJoin>, n: nat)
    requires n <= |joins| && UniqueJoins(joins[..n]).None?
    ensures UniqueJoins(joins).None?
  {
    if n < |joins| {
      assert joins[..|joins| - 1][..n] == joins[..n];
      UniqueFails(joins[..|joins| - 1], n);
    } else {
      assert joins[..n] == joins;
    }
  }

  lemma {:induction false} UniqueFailsLater(filters: seq<Filter>, n: nat)
    requires n <= |filters| && UniqueJoins(AllJoins(filters[..n])).None?
    ensures UniqueJoins(AllJoins(filters)).None?
  {
    if n < |filters| {
      var front, last := filters[..|filters| - 1], filters[|filters| - 1];
      assert front[..n] == filters[..n];
      UniqueFailsLater(front, n);
      var before, joins := AllJoins(front), Owned(last, Joins(last));
      assert (before + joins)[..|before|] == before;
      UniqueFails(before + joins, |before|);
    } else {
      assert filters[..n] == filters;
    }
  }
}
