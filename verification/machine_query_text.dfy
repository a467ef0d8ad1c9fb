/** The text of a machine query, as it is sent to the database, has a "%s" for each of its
    arguments and no other. */
module MachineQueryText {
  import opened MachineQueries
  import opened MachineQueryLaws
  import Decimal

  // ----- text -----

  /** The texts with a name; none of them holds a "%". */
  type Texts = FixedText -> string

  ghost predicate NoPercent(texts: Texts) {
    forall name :: '%' !in texts(name)
  }

  function PieceText(texts: Texts, p: Piece): string {
    match p
    case Sql(text) => text
    case Fixed(name) => texts(name)
    case Placeholder => "%s"
  }

  function FragmentText(texts: Texts, f: Fragment): string {
    if f == [] then "" else FragmentText(texts, f[..|f| - 1]) + PieceText(texts, f[|f| - 1])
  }

  function Text(texts: Texts, parts: seq<Part>): string {
    if parts == [] then "" else Text(texts, parts[..|parts| - 1]) + FragmentText(texts, parts[|parts| - 1].fragment)
  }

  /** How often "%s" occurs. */
  function Count(s: string): nat {
    if |s| < 2 then 0 else Count(s[..|s| - 1]) + if s[|s| - 2] == '%' && s[|s| - 1] == 's' then 1 else 0
  }

  // ----- counting placeholders -----

  /** No placeholder is cut in two. */
  predicate Closed(s: string) {
    s == "" || s[|s| - 1] != '%'
  }

  lemma {:induction false} CountChar(s: string, c: char)
    requires Closed(s) && c != '%'
    ensures Count(s + [c]) == Count(s) && Closed(s + [c])
  {
    assert (s + [c])[..|s|] == s;
  }

  lemma {:induction false} CountText(s: string, text: string)
    requires Closed(s) && '%' !in text
    ensures Count(s + text) == Count(s) && Closed(s + text)
    decreases text
  {
    if text == "" {
      assert s + text == s;
    } else {
      var front, c := text[..|text| - 1], text[|text| - 1];
      assert c in text && forall x | x in front :: x in text;
      CountText(s, front);
      CountChar(s + front, c);
      Regroup(s, text);
    }
  }

  lemma {:induction false} Regroup(s: string, text: string)
    requires text != ""
    ensures s + text[..|text| - 1] + [text[|text| - 1]] == s + text
  {
  }

  lemma {:induction false} CountPlaceholder(s: string)
    requires Closed(s)
    ensures Count(s + "%s") == Count(s) + 1 && Closed(s + "%s")
  {
    var half := s + "%";
    assert s + "%s" == half + "s";
    assert half[..|s|] == s && (half + "s")[..|half|] == half;
    assert Count(half) == Count(s);
  }

  predicate GoodPiece(p: Piece) {
    p.Sql? ==> '%' !in p.text
  }

  predicate GoodFragment(f: Fragment) {
    forall i | 0 <= i < |f| :: GoodPiece(f[i])
  }

  lemma {:induction false} CountPiece(texts: Texts, s: string, p: Piece)
    requires NoPercent(texts) && Closed(s) && GoodPiece(p)
    ensures Count(s + PieceText(texts, p)) == Count(s) + (if p.Placeholder? then 1 else 0)
    ensures Closed(s + PieceText(texts, p))
  {
    if p.Placeholder? {
      CountPlaceholder(s);
    } else {
      CountText(s, PieceText(texts, p));
    }
  }

  lemma {:induction false} CountFragment(texts: Texts, s: string, f: Fragment)
    requires NoPercent(texts) && Closed(s) && GoodFragment(f)
    ensures Count(s + FragmentText(texts, f)) == Count(s) + Holes(f) && Closed(s + FragmentText(texts, f))
  {
    if f == [] {
      assert s + "" == s;
    } else {
      var front, last := f[..|f| - 1], f[|f| - 1];
      CountFragment(texts, s, front);
      CountPiece(texts, s + FragmentText(texts, front), last);
      Associate(s, FragmentText(texts, front), PieceText(texts, last));
    }
  }

  lemma {:induction false} Associate(a: string, b: string, c: string)
    ensures a + b + c == a + (b + c)
  {
  }

  predicate GoodParts(parts: seq<Part>) {
    forall i | 0 <= i < |parts| :: GoodFragment(parts[i].fragment)
  }

  lemma {:induction false} CountParts(texts: Texts, parts: seq<Part>)
    requires NoPercent(texts) && GoodParts(parts)
    ensures Count(Text(texts, parts)) == TotalPlaceholders(parts) && Closed(Text(texts, parts))
  {
    if parts != [] {
      CountParts(texts, parts[..|parts| - 1]);
      CountFragment(texts, Text(texts, parts[..|parts| - 1]), parts[|parts| - 1].fragment);
    }
  }

  // ----- the parts of a query -----

  lemma {:induction false} DigitsNoPercent(n: nat)
    ensures '%' !in Decimal.Str(n)
  {
    var s := Decimal.Digits(n);
    assert forall i | 0 <= i < |s| :: Decimal.IsDigit(s[i]);
  }

  lemma {:induction false} GoodJoins(f: Filter)
    ensures forall j | j in Joins(f) :: GoodFragment(j.text)
  {
    if f.kind.Bundle? {
      GoodBundleJoin(f.idx, f.kind.byId, f.kind.bundle);
    }
  }

  lemma {:induction false} GoodBundleJoin(idx: nat, byId: bool, bundle: string)
    ensures GoodFragment(BundleJoin(idx, byId, bundle).text)
  {
    DigitsNoPercent(idx);
  }

  lemma {:induction false} GoodColumn(f: Filter, column: string)
    requires '%' !in column
    ensures GoodParts(PartsOf(FilterNumber(f.idx), ColumnWheres(f, column)))
  {
    assert '%' !in column + " = " && '%' !in column + " is null";
  }

  lemma {:induction false} ColumnNoPercent(f: Filter)
    ensures '%' !in Column(f)
  {
    if f.kind.Bundle? {
      DigitsNoPercent(f.idx);
      NoPercentJoined("a", Decimal.Str(f.idx), ".id");
    }
  }

  lemma {:induction false} NoPercentJoined(a: string, b: string, c: string)
    requires '%' !in a && '%' !in b && '%' !in c
    ensures '%' !in a + b + c
  {
  }

  lemma {:induction false} GoodWheres(f: Filter)
    ensures GoodParts(PartsOf(FilterNumber(f.idx), Wheres(f)))
  {
    if Column(f) != "" {
      ColumnNoPercent(f);
      GoodColumn(f, Column(f));
      assert Wheres(f) == ColumnWheres(f, Column(f));
    }
  }

  lemma {:induction false} GoodConcat(a: seq<Part>, b: seq<Part>)
    requires GoodParts(a) && GoodParts(b)
    ensures GoodParts(a + b)
  {
  }

  lemma {:induction false} GoodWithJoins(b: Built, filters: seq<Filter>, joins: seq<OwnedJoin>)
    requires GoodParts(b.parts) && AllGood(filters, joins)
    ensures GoodParts(WithJoins(b, joins).parts)
  {
    if joins != [] {
      var front, j := joins[..|joins| - 1], joins[|joins| - 1];
      assert j in joins && GoodJoin(filters, j);
      GoodWithJoins(b, filters, front);
      var i :| 0 <= i < |filters| && j.owner == FilterNumber(filters[i].idx) && j.join in Joins(filters[i]);
      GoodJoins(filters[i]);
    }
  }

  lemma {:induction false} GoodConditions(filters: seq<Filter>)
    ensures GoodParts(Conditions(filters).parts)
  {
    if filters != [] {
      GoodConditions(filters[..|filters| - 1]);
      GoodWheres(filters[|filters| - 1]);
    }
  }

  lemma {:induction false} GoodAnd(parts: seq<Part>)
    requires GoodParts(parts)
    ensures GoodParts(JoinedByAnd(parts))
  {
    if |parts| > 1 {
      GoodAnd(parts[..|parts| - 1]);
    }
  }

  lemma {:induction false} GoodWithConditions(b: Built, conditions: Built)
    requires GoodParts(b.parts) && GoodParts(conditions.parts)
    ensures GoodParts(WithConditions(b, conditions).parts)
  {
    GoodAnd(conditions.parts);
    var where := [Part(Query, [Sql("\nWHERE\n")])];
    GoodConcat(where, JoinedByAnd(conditions.parts));
    GoodConcat(b.parts, if conditions.parts == [] then [] else where + JoinedByAnd(conditions.parts));
  }

  lemma {:induction false} GoodGroupingQuery(filters: seq<Filter>, select: string, groupBy: string)
    requires Numbered(filters) && '%' !in select && '%' !in groupBy
    ensures GroupingQuery(filters, select, groupBy).Some?
    ensures GoodParts(GroupingQuery(filters, select, groupBy).value.parts)
  {
    var start := Built(SelectFrom(select), []);
    GoodSelect(select);
    GoodUniqueJoins(filters, start);
    GoodConditions(filters);
    GoodGroupBy(WithJoins(start, UniqueJoins(AllJoins(filters)).value), Conditions(filters), groupBy);
  }

  lemma {:induction false} GoodSelect(select: string)
    requires '%' !in select
    ensures GoodParts(SelectFrom(select))
  {
    assert '%' !in "select\n";
  }

  lemma {:induction false} GoodUniqueJoins(filters: seq<Filter>, start: Built)
    requires Numbered(filters) && GoodParts(start.parts)
    ensures UniqueJoins(AllJoins(filters)).Some?
    ensures GoodParts(WithJoins(start, UniqueJoins(AllJoins(filters)).value).parts)
  {
    JoinsOnce(filters);
    GoodWithJoins(start, filters, UniqueJoins(AllJoins(filters)).value);
  }

  lemma {:induction false} GoodGroupBy(b: Built, conditions: Built, groupBy: string)
    requires GoodParts(b.parts) && GoodParts(conditions.parts) && '%' !in groupBy
    ensures GoodParts(WithConditions(b, conditions).parts + [Part(Query, [Sql(groupBy)])])
  {
    GoodWithConditions(b, conditions);
    GoodConcat(WithConditions(b, conditions).parts, [Part(Query, [Sql(groupBy)])]);
  }

  /** The grouping query has a "%s" for each argument. */
  lemma {:induction false} GroupingTextCounts(texts: Texts, filters: seq<Filter>, select: string, groupBy: string)
    requires NoPercent(texts) && Numbered(filters) && '%' !in select && '%' !in groupBy
    ensures var r := GroupingQuery(filters, select, groupBy);
            r.Some? && Count(Text(texts, r.value.parts)) == |r.value.args|
  {
    GoodGroupingQuery(filters, select, groupBy);
    GroupingQueryAligned(filters, select, groupBy);
    var b := GroupingQuery(filters, select, groupBy).value;
    AlignedCounts(b);
    CountParts(texts, b.parts);
  }

  /** So has the fetching query. */
  lemma {:induction false} FetchingTextCounts(
    texts: Texts, filters: seq<Filter>, select: string, groupBy: string, paginate: bool, page: int, paginateBy: int)
    requires NoPercent(texts) && Numbered(filters) && '%' !in select && '%' !in groupBy
    ensures var r := FetchingQuery(filters, select, groupBy, paginate, page, paginateBy);
            r.Some? && Count(Text(texts, r.value.parts)) == |r.value.args|
  {
    GoodGroupingQuery(filters, select, groupBy);
    FetchingQueryAligned(filters, select, groupBy, paginate, page, paginateBy);
    var b := FetchingQuery(filters, select, groupBy, paginate, page, paginateBy).value;
    GoodOuter(GroupingQuery(filters, select, groupBy).value, paginate, page, paginateBy);
    AlignedCounts(b);
    CountParts(texts, b.parts);
  }

  lemma {:induction false} GoodOuter(b: Built, paginate: bool, page: int, paginateBy: int)
    requires GoodParts(b.parts)
    ensures GoodParts(Outer(b, paginate, page, paginateBy).parts)
  {
  }

  // ----- the text of a query -----

  function JoinsText(texts: Texts, joins: seq<OwnedJoin>): string {
    if joins == [] then ""
    else JoinsText(texts, joins[..|joins| - 1]) + FragmentText(texts, joins[|joins| - 1].join.text)
  }

  function FragmentTexts(texts: Texts, fragments: seq<Fragment>): seq<string> {
    if fragments == [] then []
    else FragmentTexts(texts, fragments[..|fragments| - 1]) + [FragmentText(texts, fragments[|fragments| - 1])]
  }

  /** The texts of all conditions, filter by filter. */
  function WhereTexts(texts: Texts, filters: seq<Filter>): seq<string> {
    if filters == [] then []
    else WhereTexts(texts, filters[..|filters| - 1]) + FragmentTexts(texts, Wheres(filters[|filters| - 1]))
  }

  /** `" AND ".join(wheres)` */
  function JoinedWithAnd(wheres: seq<string>): string {
    if wheres == [] then ""
    else if |wheres| == 1 then wheres[0]
    else JoinedWithAnd(wheres[..|wheres| - 1]) + " AND " + wheres[|wheres| - 1]
  }

  lemma {:induction false} TextConcat(texts: Texts, a: seq<Part>, b: seq<Part>)
    ensures Text(texts, a + b) == Text(texts, a) + Text(texts, b)
  {
    if b == [] {
      assert a + b == a;
    } else {
      assert (a + b)[..|a + b| - 1] == a + b[..|b| - 1];
      TextConcat(texts, a, b[..|b| - 1]);
      Associate(Text(texts, a), Text(texts, b[..|b| - 1]), FragmentText(texts, b[|b| - 1].fragment));
    }
  }

  lemma {:induction false} OnePartText(texts: Texts, p: Part)
    ensures Text(texts, [p]) == FragmentText(texts, p.fragment)
  {
    assert [p][..0] == [] && Text(texts, []) == "";
  }

  lemma {:induction false} WithJoinsText(texts: Texts, b: Built, joins: seq<OwnedJoin>)
    ensures Text(texts, WithJoins(b, joins).parts) == Text(texts, b.parts) + JoinsText(texts, joins)
  {
    if joins != [] {
      var front, j := joins[..|joins| - 1], joins[|joins| - 1];
      WithJoinsText(texts, b, front);
      TextConcat(texts, WithJoins(b, front).parts, [Part(j.owner, j.join.text)]);
      OnePartText(texts, Part(j.owner, j.join.text));
      Associate(Text(texts, b.parts), JoinsText(texts, front), FragmentText(texts, j.join.text));
    }
  }

  /** The texts of the parts, one by one. */
  function PartTexts(texts: Texts, parts: seq<Part>): seq<string> {
    if parts == [] then []
    else PartTexts(texts, parts[..|parts| - 1]) + [FragmentText(texts, parts[|parts| - 1].fragment)]
  }

  lemma {:induction false} PartTextsConcat(texts: Texts, a: seq<Part>, b: seq<Part>)
    ensures PartTexts(texts, a + b) == PartTexts(texts, a) + PartTexts(texts, b)
  {
    if b == [] {
      assert a + b == a;
    } else {
      assert (a + b)[..|a + b| - 1] == a + b[..|b| - 1];
      PartTextsConcat(texts, a, b[..|b| - 1]);
    }
  }

  lemma {:induction false} PartsOfTexts(texts: Texts, owner: Owner, fragments: seq<Fragment>)
    ensures PartTexts(texts, PartsOf(owner, fragments)) == FragmentTexts(texts, fragments)
  {
    if fragments != [] {
      var front := fragments[..|fragments| - 1];
      var parts := PartsOf(owner, fragments);
      PartsOfTexts(texts, owner, front);
      assert parts[..|parts| - 1] == PartsOf(owner, front);
    }
  }

  lemma {:induction false} ConditionsTexts(texts: Texts, filters: seq<Filter>)
    ensures PartTexts(texts, Conditions(filters).parts) == WhereTexts(texts, filters)
  {
    if filters != [] {
      var front, f := filters[..|filters| - 1], filters[|filters| - 1];
      ConditionsTexts(texts, front);
      PartsOfTexts(texts, FilterNumber(f.idx), Wheres(f));
      PartTextsConcat(texts, Conditions(front).parts, PartsOf(FilterNumber(f.idx), Wheres(f)));
    }
  }

  lemma {:induction false} AndText(texts: Texts, parts: seq<Part>)
    ensures Text(texts, JoinedByAnd(parts)) == JoinedWithAnd(PartTexts(texts, parts))
    ensures |PartTexts(texts, parts)| == |parts|
  {
    if |parts| == 1 {
      OnePartText(texts, parts[0]);
      assert parts == [parts[0]] && parts[..0] == [];
    } else if |parts| > 1 {
      var front, last := parts[..|parts| - 1], parts[|parts| - 1];
      var and := Part(Query, [Sql(" AND ")]);
      AndText(texts, front);
      assert JoinedByAnd(parts) == JoinedByAnd(front) + [and] + [last];
      TextConcat(texts, JoinedByAnd(front) + [and], [last]);
      TextConcat(texts, JoinedByAnd(front), [and]);
      OnePartText(texts, and);
      OnePartText(texts, last);
      OnePieceText(texts, Sql(" AND "));
      var wheres := PartTexts(texts, parts);
      assert wheres[..|wheres| - 1] == PartTexts(texts, front);
    }
  }

  lemma {:induction false} OnePieceText(texts: Texts, p: Piece)
    ensures FragmentText(texts, [p]) == PieceText(texts, p)
  {
    assert [p][..0] == [] && FragmentText(texts, []) == "";
  }

  lemma {:induction false} SelectText(texts: Texts, select: string)
    ensures Text(texts, SelectFrom(select)) == "select\n" + select + texts(FromSnapshots)
  {
    var f := [Sql("select\n"), Sql(select), Fixed(FromSnapshots)];
    assert SelectFrom(select) == [Part(Query, f)];
    OnePartText(texts, Part(Query, f));
    assert f[..2] == [Sql("select\n"), Sql(select)] && f[..2][..1] == [Sql("select\n")];
    OnePieceText(texts, Sql("select\n"));
    assert FragmentText(texts, f[..2]) == "select\n" + select;
  }

  lemma {:induction false} WithConditionsText(texts: Texts, b: Built, conditions: Built)
    ensures Text(texts, WithConditions(b, conditions).parts) ==
            Text(texts, b.parts) +
            if conditions.parts == [] then "" else "\nWHERE\n" + JoinedWithAnd(PartTexts(texts, conditions.parts))
  {
    var where := [Part(Query, [Sql("\nWHERE\n")])];
    AndText(texts, conditions.parts);
    if conditions.parts == [] {
      assert b.parts + [] == b.parts;
    } else {
      TextConcat(texts, where, JoinedByAnd(conditions.parts));
      TextConcat(texts, b.parts, where + JoinedByAnd(conditions.parts));
      OnePartText(texts, where[0]);
      OnePieceText(texts, Sql("\nWHERE\n"));
    }
  }

  /** The text of the grouping query: the select list and the base table, the joins, the
      conditions with AND between them if there are any, and the grouping sets. */
  lemma {:induction false} GroupingTextIs(texts: Texts, filters: seq<Filter>, select: string, groupBy: string)
    requires Numbered(filters)
    ensures GroupingQuery(filters, select, groupBy).Some? && UniqueJoins(AllJoins(filters)).Some?
    ensures var wheres := WhereTexts(texts, filters);
            Text(texts, GroupingQuery(filters, select, groupBy).value.parts) ==
            "select\n" + select + texts(FromSnapshots)
            + JoinsText(texts, UniqueJoins(AllJoins(filters)).value)
            + (if wheres == [] then "" else "\nWHERE\n" + JoinedWithAnd(wheres))
            + groupBy
  {
    JoinsOnce(filters);
    var start := Built(SelectFrom(select), []);
    var joined := WithJoins(start, UniqueJoins(AllJoins(filters)).value);
    var b := WithConditions(joined, Conditions(filters));
    SelectText(texts, select);
    WithJoinsText(texts, start, UniqueJoins(AllJoins(filters)).value);
    ConditionsTexts(texts, filters);
    AndText(texts, Conditions(filters).parts);
    WithConditionsText(texts, joined, Conditions(filters));
    TextConcat(texts, b.parts, [Part(Query, [Sql(groupBy)])]);
    OnePartText(texts, Part(Query, [Sql(groupBy)]));
    OnePieceText(texts, Sql(groupBy));
  }

  /** The fetching query selects from it, ordered, with limit and offset if it is paged. */
  lemma {:induction false} FetchingTextIs(
    texts: Texts, filters: seq<Filter>, select: string, groupBy: string, paginate: bool, page: int, paginateBy: int)
    requires Numbered(filters)
    ensures GroupingQuery(filters, select, groupBy).Some?
    ensures var r := FetchingQuery(filters, select, groupBy, paginate, page, paginateBy);
            r.Some? && Text(texts, r.value.parts) ==
            texts(SelectMachines) + Text(texts, GroupingQuery(filters, select, groupBy).value.parts)
            + texts(GroupMachines) + if paginate then " limit %s offset %s" else ""
  {
    JoinsOnce(filters);
    OuterText(texts, GroupingQuery(filters, select, groupBy).value, paginate, page, paginateBy);
  }

  lemma {:induction false} OuterText(texts: Texts, b: Built, paginate: bool, page: int, paginateBy: int)
    ensures Text(texts, Outer(b, paginate, page, paginateBy).parts) ==
            texts(SelectMachines) + Text(texts, b.parts) + texts(GroupMachines)
            + if paginate then " limit %s offset %s" else ""
  {
    var first, last := [Part(Query, [Fixed(SelectMachines)])], [Part(Query, [Fixed(GroupMachines)])];
    var pages := if paginate then LimitOffset(page, paginateBy) else Built([], []);
    FourTexts(texts, first, b.parts, last, pages.parts);
    OnePartText(texts, first[0]);
    OnePartText(texts, last[0]);
    OnePieceText(texts, Fixed(SelectMachines));
    OnePieceText(texts, Fixed(GroupMachines));
    if paginate {
      LimitText(texts, page, paginateBy);
    }
  }

  lemma {:induction false} FourTexts(texts: Texts, a: seq<Part>, b: seq<Part>, c: seq<Part>, d: seq<Part>)
    ensures Text(texts, a + b + c + d) == Text(texts, a) + Text(texts, b) + Text(texts, c) + Text(texts, d)
  {
    TextConcat(texts, a + b + c, d);
    TextConcat(texts, a + b, c);
    TextConcat(texts, a, b);
  }

  lemma {:induction false} LimitText(texts: Texts, page: int, paginateBy: int)
    ensures Text(texts, LimitOffset(page, paginateBy).parts) == " limit %s offset %s"
  {
    var f := [Sql(" limit "), Placeholder, Sql(" offset "), Placeholder];
    var parts := LimitOffset(page, paginateBy).parts;
    assert parts == [Part(Query, f)];
    OnePartText(texts, Part(Query, f));
    assert f[..3] == [Sql(" limit "), Placeholder, Sql(" offset ")];
    assert f[..3][..2] == [Sql(" limit "), Placeholder] && f[..3][..2][..1] == [Sql(" limit ")];
    OnePieceText(texts, Sql(" limit "));
    assert FragmentText(texts, f[..3][..2]) == " limit " + "%s";
    assert FragmentText(texts, f[..3]) == " limit " + "%s" + " offset ";
  }

  /** The join of a bundle: the sub query, with a placeholder for the bundle, under an alias
      with the number of the filter. */
  lemma {:induction false} BundleJoinText(texts: Texts, idx: nat, byId: bool, bundle: string)
    ensures FragmentText(texts, BundleJoin(idx, byId, bundle).text) ==
            texts(if byId then JoinAppsById else JoinAppsByName) + "%s" + ") a" + Decimal.Str(idx) + " on TRUE"
  {
    var f := BundleJoin(idx, byId, bundle).text;
    OnePieceText(texts, f[0]);
    assert f[..1] == [f[0]] && f[..2][..1] == f[..1] && f[..3][..2] == f[..2] && f[..4][..3] == f[..3];
    assert FragmentText(texts, f[..2]) == FragmentText(texts, f[..1]) + "%s";
    assert FragmentText(texts, f[..3]) == FragmentText(texts, f[..2]) + ") a";
    assert FragmentText(texts, f[..4]) == FragmentText(texts, f[..3]) + Decimal.Str(idx);
  }
}
