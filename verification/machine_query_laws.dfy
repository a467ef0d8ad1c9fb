/** Whatever the filters, the arguments of a machine query line up with its placeholders,
    and every join is there once. */
module MachineQueryLaws {
  import opened Wrappers
  import opened MachineQueries
  import Decimal

  // ----- alignment -----

  function Repeat(owner: Owner, n: nat): (r: seq<Owner>)
    ensures |r| == n && forall i | 0 <= i < n :: r[i] == owner
  {
    if n == 0 then [] else Repeat(owner, n - 1) + [owner]
  }

  /** The owners of the placeholders of a text, in order. */
  function HoleOwners(parts: seq<Part>): seq<Owner> {
    if parts == [] then []
    else HoleOwners(parts[..|parts| - 1]) + Repeat(parts[|parts| - 1].owner, Holes(parts[|parts| - 1].fragment))
  }

  function ArgOwners(args: seq<Arg>): (r: seq<Owner>)
    ensures |r| == |args| && forall i | 0 <= i < |args| :: r[i] == args[i].owner
  {
    if args == [] then [] else ArgOwners(args[..|args| - 1]) + [args[|args| - 1].owner]
  }

  /** As many placeholders as arguments, each from the same filter as its argument. */
  predicate Aligned(b: Built) {
    HoleOwners(b.parts) == ArgOwners(b.args)
  }

  lemma {:induction false} FrontOfConcat(a: seq<Part>, b: seq<Part>)
    requires b != []
    ensures (a + b)[..|a + b| - 1] == a + b[..|b| - 1] && (a + b)[|a + b| - 1] == b[|b| - 1]
  {
  }

  lemma {:induction false} HoleOwnersConcat(a: seq<Part>, b: seq<Part>)
    ensures HoleOwners(a + b) == HoleOwners(a) + HoleOwners(b)
  {
    if b == [] {
      assert a + b == a;
    } else {
      HoleOwnersConcat(a, b[..|b| - 1]);
      FrontOfConcat(a, b);
    }
  }

  lemma {:induction false} ArgOwnersConcat(a: seq<Arg>, b: seq<Arg>)
    ensures ArgOwners(a + b) == ArgOwners(a) + ArgOwners(b)
  {
    var l, r := ArgOwners(a + b), ArgOwners(a) + ArgOwners(b);
    forall i | 0 <= i < |a + b| ensures l[i] == r[i] {
      assert (a + b)[i] == if i < |a| then a[i] else b[i - |a|];
    }
  }

  lemma {:induction false} AlignedConcat(a: Built, b: Built)
    requires Aligned(a) && Aligned(b)
    ensures Aligned(Built(a.parts + b.parts, a.args + b.args))
  {
    HoleOwnersConcat(a.parts, b.parts);
    ArgOwnersConcat(a.args, b.args);
  }

  lemma {:induction false} ArgsOfOwners(owner: Owner, values: seq<ArgValue>)
    ensures ArgOwners(ArgsOf(owner, values)) == Repeat(owner, |values|)
  {
  }

  lemma {:induction false} OnePart(owner: Owner, fragment: Fragment)
    ensures HoleOwners([Part(owner, fragment)]) == Repeat(owner, Holes(fragment))
  {
    assert [Part(owner, fragment)][..0] == [];
    assert HoleOwners([]) == [];
  }

  lemma {:induction false} NoHoles(p: Piece)
    requires !p.Placeholder?
    ensures Holes([p]) == 0
  {
    assert [p][..0] == [];
    assert Holes([]) == 0;
  }

  /** A text of the query itself changes nothing. */
  lemma {:induction false} TextAligned(p: Piece)
    requires !p.Placeholder?
    ensures Aligned(Built([Part(Query, [p])], []))
  {
    NoHoles(p);
    OnePart(Query, [p]);
  }

  lemma {:induction false} HolesConcat(a: Fragment, p: Piece)
    ensures Holes(a + [p]) == Holes(a) + if p.Placeholder? then 1 else 0
  {
    assert (a + [p])[..|a|] == a;
  }

  // ----- joins -----

  lemma {:induction false} BundleJoinHoles(idx: nat, byId: bool, bundle: string)
    ensures Holes(BundleJoin(idx, byId, bundle).text) == 1
  {
    var t := BundleJoin(idx, byId, bundle).text;
    assert t == [t[0]] + [t[1]] + [t[2]] + [t[3]] + [t[4]];
    NoHoles(t[0]);
    HolesConcat([t[0]], t[1]);
    HolesConcat([t[0]] + [t[1]], t[2]);
    HolesConcat([t[0]] + [t[1]] + [t[2]], t[3]);
    HolesConcat([t[0]] + [t[1]] + [t[2]] + [t[3]], t[4]);
  }

  /** A join has one placeholder for each of its arguments; only joins of bundle filters
      have any, and those have the number of the filter in their text. */
  lemma {:induction false} JoinShape(f: Filter, j: Join)
    requires j in Joins(f)
    ensures Holes(j.text) == |j.args|
    ensures if f.kind.Bundle? then j == BundleJoin(f.idx, f.kind.byId, f.kind.bundle) else j.args == [] && |j.text| == 1
  {
    if f.kind.Bundle? {
      BundleJoinHoles(f.idx, f.kind.byId, f.kind.bundle);
    } else {
      PlainJoins(f);
      NoHoles(j.text[0]);
    }
  }

  lemma {:induction false} PlainJoins(f: Filter)
    requires !f.kind.Bundle?
    ensures forall j | j in Joins(f) :: |j.text| == 1 && j.text[0].Fixed? && j.text == [j.text[0]] && j.args == []
  {
  }

  ghost predicate GoodJoin(filters: seq<Filter>, j: OwnedJoin) {
    && Holes(j.join.text) == |j.join.args|
    && exists i :: 0 <= i < |filters| && j.owner == FilterNumber(filters[i].idx) && j.join in Joins(filters[i])
  }

  lemma {:induction false} AllJoinsGood(filters: seq<Filter>)
    ensures forall j | j in AllJoins(filters) :: GoodJoin(filters, j)
  {
    if filters != [] {
      var front, last := filters[..|filters| - 1], filters[|filters| - 1];
      AllJoinsGood(front);
      forall j | j in AllJoins(filters) ensures GoodJoin(filters, j) {
        if j in AllJoins(front) {
          var i :| 0 <= i < |front| && j.owner == FilterNumber(front[i].idx) && j.join in Joins(front[i]);
          assert filters[i] == front[i];
        } else {
          LastJoin(filters, j);
        }
      }
    }
  }

  lemma {:induction false} LastJoin(filters: seq<Filter>, j: OwnedJoin)
    requires filters != [] && j in Owned(filters[|filters| - 1], Joins(filters[|filters| - 1]))
    ensures GoodJoin(filters, j)
  {
    var last := filters[|filters| - 1];
    var k :| 0 <= k < |Owned(last, Joins(last))| && Owned(last, Joins(last))[k] == j;
    assert j.join == Joins(last)[k];
    JoinShape(last, j.join);
    assert filters[|filters| - 1] == last;
  }

  /** The same text comes with the same arguments. */
  lemma {:induction false} SameTextSameArgs(filters: seq<Filter>, a: OwnedJoin, b: OwnedJoin)
    requires Numbered(filters) && GoodJoin(filters, a) && GoodJoin(filters, b) && a.join.text == b.join.text
    ensures a.join.args == b.join.args
  {
    var i :| 0 <= i < |filters| && a.owner == FilterNumber(filters[i].idx) && a.join in Joins(filters[i]);
    var k :| 0 <= k < |filters| && b.owner == FilterNumber(filters[k].idx) && b.join in Joins(filters[k]);
    JoinShape(filters[i], a.join);
    JoinShape(filters[k], b.join);
    if filters[i].kind.Bundle? && filters[k].kind.Bundle? {
      var s, t := a.join.text, b.join.text;
      assert s[3].text == Decimal.Str(i) && t[3].text == Decimal.Str(k);
      Decimal.StrInjective(i, k);
    }
  }

  lemma {:induction false} FindTextIs(joins: seq<OwnedJoin>, text: Fragment)
    ensures var r := FindText(joins, text);
            if r.Some? then r.value in joins && r.value.join.text == text
            else forall j | j in joins :: j.join.text != text
  {
    if joins != [] {
      var front := joins[..|joins| - 1];
      FindTextIs(front, text);
      assert forall j :: j in joins <==> j in front || j == joins[|joins| - 1];
    }
  }

  ghost predicate DistinctTexts(joins: seq<OwnedJoin>) {
    forall i, j | 0 <= i < j < |joins| :: joins[i].join.text != joins[j].join.text
  }

  ghost predicate HasText(joins: seq<OwnedJoin>, text: Fragment) {
    exists j :: j in joins && j.join.text == text
  }

  /** One join for each text, with the arguments it always comes with. */
  ghost predicate OneForEach(all: seq<OwnedJoin>, unique: seq<OwnedJoin>) {
    && DistinctTexts(unique)
    && (forall j | j in unique :: j in all)
    && (forall j | j in all :: HasText(unique, j.join.text))
  }

  ghost predicate AllGood(filters: seq<Filter>, joins: seq<OwnedJoin>) {
    forall j | j in joins :: GoodJoin(filters, j)
  }

  lemma {:induction false} UniqueOfGood(filters: seq<Filter>, joins: seq<OwnedJoin>)
    requires Numbered(filters) && AllGood(filters, joins)
    ensures UniqueJoins(joins).Some? && OneForEach(joins, UniqueJoins(joins).value)
  {
    if joins != [] {
      var front, last := joins[..|joins| - 1], joins[|joins| - 1];
      assert joins == front + [last];
      assert AllGood(filters, front);
      UniqueOfGood(filters, front);
      UniqueSnoc(filters, front, last, UniqueJoins(front).value);
    }
  }

  lemma {:induction false} UniqueSnoc(filters: seq<Filter>, front: seq<OwnedJoin>, last: OwnedJoin,
      unique: seq<OwnedJoin>)
    requires Numbered(filters) && AllGood(filters, front) && GoodJoin(filters, last)
    requires OneForEach(front, unique)
    ensures AddJoin(unique, last).Some? && OneForEach(front + [last], AddJoin(unique, last).value)
  {
    FindTextIs(unique, last.join.text);
    var known := FindText(unique, last.join.text);
    assert forall j :: j in front + [last] <==> j in front || j == last;
    if known.Some? {
      SameTextSameArgs(filters, known.value, last);
      assert HasText(unique, last.join.text);
    } else {
      NewText(front, last, unique);
    }
  }

  lemma {:induction false} NewText(front: seq<OwnedJoin>, last: OwnedJoin, unique: seq<OwnedJoin>)
    requires OneForEach(front, unique) && forall j | j in unique :: j.join.text != last.join.text
    ensures OneForEach(front + [last], unique + [last])
  {
    var all, more := front + [last], unique + [last];
    assert last in more && last in all && forall j | j in front :: j in all;
    forall j | j in all ensures HasText(more, j.join.text) {
      if j in front {
        var u :| u in unique && u.join.text == j.join.text;
        assert u in more;
      }
    }
    forall i, k | 0 <= i < k < |more| ensures more[i].join.text != more[k].join.text {
      assert unique[i] in unique;
    }
  }

  /** Every join text is in the query once, and there is never a conflict. */
  lemma {:induction false} JoinsOnce(filters: seq<Filter>)
    requires Numbered(filters)
    ensures UniqueJoins(AllJoins(filters)).Some?
    ensures OneForEach(AllJoins(filters), UniqueJoins(AllJoins(filters)).value)
    ensures AllGood(filters, UniqueJoins(AllJoins(filters)).value)
  {
    AllJoinsGood(filters);
    UniqueOfGood(filters, AllJoins(filters));
  }

  lemma {:induction false} JoinPartAligned(b: Built, j: OwnedJoin)
    requires Aligned(b) && Holes(j.join.text) == |j.join.args|
    ensures Aligned(JoinPart(b, j))
  {
    OnePart(j.owner, j.join.text);
    ArgsOfOwners(j.owner, j.join.args);
    AlignedConcat(b, Built([Part(j.owner, j.join.text)], ArgsOf(j.owner, j.join.args)));
  }

  lemma {:induction false} WithJoinsAligned(b: Built, joins: seq<OwnedJoin>)
    requires Aligned(b) && forall j | j in joins :: Holes(j.join.text) == |j.join.args|
    ensures Aligned(WithJoins(b, joins))
  {
    if joins != [] {
      WithJoinsAligned(b, joins[..|joins| - 1]);
      JoinPartAligned(WithJoins(b, joins[..|joins| - 1]), joins[|joins| - 1]);
    }
  }

  // ----- conditions -----

  function TotalHoles(fragments: seq<Fragment>): nat {
    if fragments == [] then 0 else TotalHoles(fragments[..|fragments| - 1]) + Holes(fragments[|fragments| - 1])
  }

  lemma {:induction false} PartsOfOwners(owner: Owner, fragments: seq<Fragment>)
    ensures HoleOwners(PartsOf(owner, fragments)) == Repeat(owner, TotalHoles(fragments))
  {
    if fragments != [] {
      var front, last := fragments[..|fragments| - 1], fragments[|fragments| - 1];
      PartsOfOwners(owner, front);
      var parts := PartsOf(owner, fragments);
      assert parts[..|parts| - 1] == PartsOf(owner, front);
    }
  }

  lemma {:induction false} OneFragment(fragment: Fragment)
    ensures TotalHoles([fragment]) == Holes(fragment)
  {
    assert [fragment][..0] == [] && TotalHoles([]) == 0;
  }

  lemma {:induction false} ColumnHoles(f: Filter, column: string)
    ensures TotalHoles(ColumnWheres(f, column)) == if f.value == "" || f.value == NONE_VALUE then 0 else 1
  {
    if f.value == "" {
      assert TotalHoles([]) == 0;
    } else {
      var where := ColumnWheres(f, column)[0];
      OneFragment(where);
      NoHoles(where[0]);
      if f.value != NONE_VALUE {
        HolesConcat([where[0]], Placeholder);
        assert where == [where[0]] + [Placeholder];
      }
    }
  }

  lemma {:induction false} SerialNumberHoles(f: Filter)
    requires f.kind.SerialNumber?
    ensures TotalHoles(Wheres(f)) == |WhereArgs(f)|
  {
    if f.value != "" {
      var where := Wheres(f)[0];
      OneFragment(where);
      NoHoles(where[0]);
      HolesConcat([where[0]], where[1]);
      HolesConcat([where[0]] + [where[1]], where[2]);
      assert where == [where[0]] + [where[1]] + [where[2]];
    }
  }

  lemma {:induction false} ComputerNameHoles(f: Filter)
    requires f.kind.ComputerName?
    ensures TotalHoles(Wheres(f)) == |WhereArgs(f)|
  {
    if f.value != "" {
      var where := Wheres(f)[0];
      OneFragment(where);
      NoHoles(where[0]);
      if f.value != NONE_VALUE {
        HolesConcat([where[0]], where[1]);
        assert where == [where[0]] + [where[1]];
      }
    }
  }

  lemma {:induction false} PrincipalUserNameHoles(f: Filter)
    requires f.kind.PrincipalUserName?
    ensures TotalHoles(Wheres(f)) == |WhereArgs(f)|
  {
    if f.value != "" {
      var where := Wheres(f)[0];
      OneFragment(where);
      NoHoles(where[0]);
      if f.value != NONE_VALUE {
        HolesConcat([where[0]], where[1]);
        HolesConcat([where[0]] + [where[1]], where[2]);
        HolesConcat([where[0]] + [where[1]] + [where[2]], where[3]);
        HolesConcat([where[0]] + [where[1]] + [where[2]] + [where[3]], where[4]);
        assert where == [where[0]] + [where[1]] + [where[2]] + [where[3]] + [where[4]];
      }
    }
  }

  lemma {:induction false} TotalHolesSnoc(fragments: seq<Fragment>, last: Fragment)
    ensures TotalHoles(fragments + [last]) == TotalHoles(fragments) + Holes(last)
  {
    assert (fragments + [last])[..|fragments|] == fragments;
  }

  lemma {:induction false} DateTimeHoles(f: Filter)
    requires f.kind.DateTime?
    ensures TotalHoles(Wheres(f)) == |WhereArgs(f)|
  {
    if f.value != "" {
      var w := Wheres(f);
      assert w == [w[0]] + [w[1]] + [w[2]] + [w[3]] + [w[4]];
      OneFragment(w[0]);
      TotalHolesSnoc([w[0]], w[1]);
      TotalHolesSnoc([w[0]] + [w[1]], w[2]);
      TotalHolesSnoc([w[0]] + [w[1]] + [w[2]], w[3]);
      TotalHolesSnoc([w[0]] + [w[1]] + [w[2]] + [w[3]], w[4]);
      NoHoles(w[0][0]);
      NoHoles(w[1][0]);
      NoHoles(w[2][0]);
      NoHoles(w[3][0]);
      NoHoles(w[4][0]);
      HolesConcat([w[4][0]], w[4][1]);
      assert w[4] == [w[4][0]] + [w[4][1]];
    }
  }

  /** The column a filter compares with its value. */
  function Column(f: Filter): string {
    match f.kind
    case Source => "src.id"
    case MetaBusinessUnit => "mbu.id"
    case Tag => "t.id"
    case IncidentSeverity => "mis.max_incident_severity"
    case Type => "ms.type"
    case Platform => "ms.platform"
    case HardwareModel => "si.hardware_model"
    case OSVersion => "osv.id"
    case MachineGroup => "mg.id"
    case OSXAppInstance => "mosai.osxappinstance_id"
    case Bundle(_, _) => "a" + Decimal.Str(f.idx) + ".id"
    case _ => ""
  }

  /** The conditions of a filter have one placeholder for each of their arguments. */
  lemma {:induction false} WhereHoles(f: Filter)
    ensures TotalHoles(Wheres(f)) == |WhereArgs(f)|
  {
    match f.kind
    case DateTime => DateTimeHoles(f);
    case SerialNumber => SerialNumberHoles(f);
    case ComputerName => ComputerNameHoles(f);
    case PrincipalUserName => PrincipalUserNameHoles(f);
    case _ =>
      ColumnHoles(f, Column(f));
      assert Wheres(f) == ColumnWheres(f, Column(f));
  }

  lemma {:induction false} AddConditionsAligned(b: Built, f: Filter)
    requires Aligned(b)
    ensures Aligned(AddConditions(b, f))
  {
    var owner := FilterNumber(f.idx);
    WhereHoles(f);
    PartsOfOwners(owner, Wheres(f));
    ArgsOfOwners(owner, WhereArgs(f));
    AlignedConcat(b, Built(PartsOf(owner, Wheres(f)), ArgsOf(owner, WhereArgs(f))));
  }

  lemma {:induction false} ConditionsAligned(filters: seq<Filter>)
    ensures Aligned(Conditions(filters))
  {
    if filters != [] {
      ConditionsAligned(filters[..|filters| - 1]);
      AddConditionsAligned(Conditions(filters[..|filters| - 1]), filters[|filters| - 1]);
    }
  }

  lemma {:induction false} AndHasNoHoles(parts: seq<Part>)
    ensures HoleOwners(JoinedByAnd(parts)) == HoleOwners(parts)
  {
    if |parts| > 1 {
      var front, last := parts[..|parts| - 1], parts[|parts| - 1];
      AndHasNoHoles(front);
      TextAligned(Sql(" AND "));
      var and := [Part(Query, [Sql(" AND ")])];
      assert and + [last] == [Part(Query, [Sql(" AND ")]), last] && front + [last] == parts;
      HoleOwnersConcat(and, [last]);
      HoleOwnersConcat(JoinedByAnd(front), and + [last]);
      HoleOwnersConcat(front, [last]);
    }
  }

  lemma {:induction false} WithConditionsAligned(b: Built, conditions: Built)
    requires Aligned(b) && Aligned(conditions)
    ensures Aligned(WithConditions(b, conditions))
  {
    var joined := Built(JoinedByAnd(conditions.parts), conditions.args);
    AndHasNoHoles(conditions.parts);
    if conditions.parts == [] {
      AlignedConcat(b, conditions);
    } else {
      TextAligned(Sql("\nWHERE\n"));
      var where := Built([Part(Query, [Sql("\nWHERE\n")])], []);
      AlignedConcat(where, joined);
      assert [] + joined.args == joined.args;
      AlignedConcat(b, Built(where.parts + joined.parts, joined.args));
    }
  }

  // ----- main results -----

  lemma {:induction false} SelectFromAligned(select: string)
    ensures Aligned(Built(SelectFrom(select), []))
  {
    var f := SelectFrom(select)[0].fragment;
    NoHoles(f[0]);
    HolesConcat([f[0]], f[1]);
    HolesConcat([f[0]] + [f[1]], f[2]);
    assert f == [f[0]] + [f[1]] + [f[2]];
    OnePart(Query, f);
  }

  lemma {:induction false} LimitOffsetAligned(page: int, paginateBy: int)
    ensures Aligned(LimitOffset(page, paginateBy))
  {
    var b := LimitOffset(page, paginateBy);
    var f := b.parts[0].fragment;
    NoHoles(f[0]);
    HolesConcat([f[0]], f[1]);
    HolesConcat([f[0]] + [f[1]], f[2]);
    HolesConcat([f[0]] + [f[1]] + [f[2]], f[3]);
    assert f == [f[0]] + [f[1]] + [f[2]] + [f[3]];
    OnePart(Query, f);
    assert b.args == ArgsOf(Query, [b.args[0].value, b.args[1].value]);
    ArgsOfOwners(Query, [b.args[0].value, b.args[1].value]);
  }

  /** The grouping query can always be built, and its arguments line up. */
  lemma {:induction false} GroupingQueryAligned(filters: seq<Filter>, select: string, groupBy: string)
    requires Numbered(filters)
    ensures GroupingQuery(filters, select, groupBy).Some? && Aligned(GroupingQuery(filters, select, groupBy).value)
  {
    JoinsOnce(filters);
    var unique := UniqueJoins(AllJoins(filters)).value;
    SelectFromAligned(select);
    var start := Built(SelectFrom(select), []);
    WithJoinsAligned(start, unique);
    ConditionsAligned(filters);
    WithConditionsAligned(WithJoins(start, unique), Conditions(filters));
    var b := WithConditions(WithJoins(start, unique), Conditions(filters));
    TextAligned(Sql(groupBy));
    AlignedConcat(b, Built([Part(Query, [Sql(groupBy)])], []));
    assert b.args + [] == b.args;
  }

  /** So can the fetching query, with the arguments of its pages last. */
  lemma {:induction false} FetchingQueryAligned(filters: seq<Filter>, select: string, groupBy: string, paginate: bool,
      page: int, paginateBy: int)
    requires Numbered(filters)
    ensures var r := FetchingQuery(filters, select, groupBy, paginate, page, paginateBy);
            && r.Some? && Aligned(r.value)
            && GroupingQuery(filters, select, groupBy).Some?
            && r.value.args == GroupingQuery(filters, select, groupBy).value.args +
                              if paginate then LimitOffset(page, paginateBy).args else []
  {
    GroupingQueryAligned(filters, select, groupBy);
    var b := GroupingQuery(filters, select, groupBy).value;
    OuterAligned(b, paginate, page, paginateBy);
  }

  lemma {:induction false} OuterAligned(b: Built, paginate: bool, page: int, paginateBy: int)
    requires Aligned(b)
    ensures Aligned(Outer(b, paginate, page, paginateBy))
  {
    var pages := if paginate then LimitOffset(page, paginateBy) else Built([], []);
    LimitOffsetAligned(page, paginateBy);
    var before, after := [Part(Query, [Fixed(SelectMachines)])], [Part(Query, [Fixed(GroupMachines)])];
    TextAligned(Fixed(SelectMachines));
    TextAligned(Fixed(GroupMachines));
    AlignedConcat(Built(before, []), b);
    assert [] + b.args == b.args;
    AlignedConcat(Built(before + b.parts, b.args), Built(after, []));
    assert b.args + [] == b.args;
    AlignedConcat(Built(before + b.parts + after, b.args), pages);
  }

  lemma {:induction false} HoleOwnersLength(parts: seq<Part>)
    ensures |HoleOwners(parts)| == TotalPlaceholders(parts)
  {
    if parts != [] {
      HoleOwnersLength(parts[..|parts| - 1]);
    }
  }

  function TotalPlaceholders(parts: seq<Part>): nat {
    if parts == [] then 0 else TotalPlaceholders(parts[..|parts| - 1]) + Holes(parts[|parts| - 1].fragment)
  }

  /** Alignment, said in numbers. */
  lemma {:induction false} AlignedCounts(b: Built)
    requires Aligned(b)
    ensures TotalPlaceholders(b.parts) == |b.args|
    ensures forall k | 0 <= k < |b.args| :: k < |HoleOwners(b.parts)| && HoleOwners(b.parts)[k] == b.args[k].owner
  {
    HoleOwnersLength(b.parts);
  }
}
