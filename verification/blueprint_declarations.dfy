/** The activation and the declaration items of a blueprint, and the tokens that tell a
    device whether they have changed. */
module BlueprintDeclarations {
  import opened Wrappers
  import opened Sequences
  import opened Strings
  import opened Sorting
  import StatusReports

  // ----- values with a token -----

  /** A value as it is stored, with the token it got when it last changed. */
  datatype Versioned<T> = Versioned(value: T, token: string)

  /** A fresh token only if the value is new. */
  function Renewed<T(==)>(stored: Option<Versioned<T>>, value: T, token: string): Versioned<T> {
    if stored.None? || stored.value.value != value then Versioned(value, token) else stored.value
  }

  datatype Update<T> = Update(value: T, token: string)

  function RenewedAll<T(==)>(stored: Option<Versioned<T>>, updates: seq<Update<T>>): Option<Versioned<T>> {
    if updates == [] then stored
    else
      var last := updates[|updates| - 1];
      Some(Renewed(RenewedAll(stored, updates[..|updates| - 1]), last.value, last.token))
  }

  ghost predicate FreshTokens<T>(stored: Option<Versioned<T>>, updates: seq<Update<T>>) {
    && (forall i, j | 0 <= i < j < |updates| :: updates[i].token != updates[j].token)
    && (stored.Some? ==> forall i | 0 <= i < |updates| :: updates[i].token != stored.value.token)
  }

  lemma {:induction false} RenewedIs<T>(stored: Option<Versioned<T>>, updates: seq<Update<T>>, n: nat)
    requires FreshTokens(stored, updates) && 0 < n <= |updates|
    ensures RenewedAll(stored, updates[..n]).value.value == updates[n - 1].value
    ensures forall k | n <= k < |updates| :: RenewedAll(stored, updates[..n]).value.token != updates[k].token
  {
    RenewedNext(stored, updates, n - 1);
    if n > 1 {
      RenewedIs(stored, updates, n - 1);
    } else {
      assert updates[..0] == [];
    }
  }

  /** The token is the same after two updates exactly when the value did not change at
      any update between them. */
  lemma {:induction false} TokenMeansSame<T>(stored: Option<Versioned<T>>, updates: seq<Update<T>>, i: nat, j: nat)
    requires FreshTokens(stored, updates) && i <= j < |updates|
    ensures RenewedAll(stored, updates[..i + 1]).value.token == RenewedAll(stored, updates[..j + 1]).value.token <==>
            forall k | i <= k <= j :: updates[k].value == updates[i].value
  {
    if i < j {
      TokenMeansSame(stored, updates, i, j - 1);
      RenewedIs(stored, updates, i + 1);
      RenewedIs(stored, updates, j);
      RenewedNext(stored, updates, j);
      if forall k | i <= k <= j - 1 :: updates[k].value == updates[i].value {
        assert updates[j - 1].value == updates[i].value;
      }
    }
  }

  lemma {:induction false} RenewedNext<T>(stored: Option<Versioned<T>>, updates: seq<Update<T>>, n: nat)
    requires n < |updates|
    ensures RenewedAll(stored, updates[..n + 1]) ==
            Some(Renewed(RenewedAll(stored, updates[..n]), updates[n].value, updates[n].token))
  {
    assert updates[..n + 1][..n] == updates[..n];
  }

  // ----- payloads -----

  /** A declaration as it is listed: its identifier and its token. */
  datatype Item = Item(identifier: string, serverToken: string)

  datatype Declarations = Declarations(activation: Item, configurations: seq<Item>)

  /** A row of the query for the latest profile versions. */
  datatype Latest = Latest(artifact: string, version: string)

  function BlueprintIdentifier(domain: string, pk: string, suffix: string): string {
    domain + ".blueprint." + pk + "." + suffix
  }

  function ActivationPayload(domain: string, pk: string, artifacts: seq<string>): seq<string> {
    Sort([BlueprintIdentifier(domain, pk, "management-status-subscriptions")]
         + Map((a: string) => StatusReports.LegacyProfileIdentifier(domain, a), artifacts))
  }

  predicate ItemLe(a: Item, b: Item) {
    if a.identifier == b.identifier then Le(a.serverToken, b.serverToken) else Le(a.identifier, b.identifier)
  }

  function Configurations(domain: string, pk: string, rows: seq<Latest>): seq<Item> {
    SortBy(ItemLe, [Item(BlueprintIdentifier(domain, pk, "management-status-subscriptions"), "1")]
                   + Map((r: Latest) => Item(StatusReports.LegacyProfileIdentifier(domain, r.artifact), r.version),
                       rows))
  }

  function DeclarationsOf(domain: string, pk: string, activationToken: string, rows: seq<Latest>): Declarations {
    Declarations(Item(BlueprintIdentifier(domain, pk, "activation"), activationToken), Configurations(domain, pk, rows))
  }

  class Blueprint {
    const domain: string
    const pk: string
    var activation: Option<Versioned<seq<string>>>
    var declarationItems: Option<Versioned<Declarations>>

    constructor (domain: string, pk: string)
      ensures this.domain == domain && this.pk == pk && activation == None && declarationItems == None
    {
      this.domain, this.pk, activation, declarationItems := domain, pk, None, None;
    }

    /** `update_blueprint_activation`, for the artifacts in the order of the query */
    method UpdateActivation(artifacts: seq<string>, token: string) returns (changed: bool)
      modifies this`activation
      ensures activation == Some(Renewed(old(activation), ActivationPayload(domain, pk, artifacts), token))
      ensures changed <==> old(activation).None? || old(activation).value.value != activation.value.value
    {
      var payload := [BlueprintIdentifier(domain, pk, "management-status-subscriptions")];
      ghost var f := (a: string) => StatusReports.LegacyProfileIdentifier(domain, a);
      ghost var first := payload;
      for i := 0 to |artifacts|
        invariant payload == first + Map(f, artifacts[..i])
      {
        assert artifacts[..i + 1][..i] == artifacts[..i];
        payload := payload + [StatusReports.LegacyProfileIdentifier(domain, artifacts[i])];
      }
      assert artifacts[..|artifacts|] == artifacts;
      payload := Sort(payload);
      changed := activation.None? || activation.value.value != payload;
      if changed {
        activation := Some(Versioned(payload, token));
      }
    }

    /** `update_blueprint_declaration_items`; it fails without an activation. */
    method UpdateDeclarationItems(rows: seq<Latest>, token: string) returns (changed: Option<bool>)
      modifies this`declarationItems
      ensures changed.None? <==> activation.None?
      ensures changed.None? ==> declarationItems == old(declarationItems)
      ensures changed.Some? ==>
                && declarationItems == Some(Renewed(old(declarationItems),
                    DeclarationsOf(domain, pk, activation.value.token, rows), token))
                && (changed.value <==>
                    old(declarationItems).None? ||
                    old(declarationItems).value.value != declarationItems.value.value)
    {
      if activation.None? {
        return None;
      }
      var configurations := [Item(BlueprintIdentifier(domain, pk, "management-status-subscriptions"), "1")];
      ghost var f := (r: Latest) => Item(StatusReports.LegacyProfileIdentifier(domain, r.artifact), r.version);
      ghost var first := configurations;
      for i := 0 to |rows|
        invariant configurations == first + Map(f, rows[..i])
      {
        assert rows[..i + 1][..i] == rows[..i];
        configurations := configurations + [Item(StatusReports.LegacyProfileIdentifier(domain, rows[i].artifact),
            rows[i].version)];
      }
      assert rows[..|rows|] == rows;
      configurations := SortBy(ItemLe, configurations);
      var declarations := Declarations(Item(BlueprintIdentifier(domain, pk, "activation"), activation.value.token),
          configurations);
      changed := Some(declarationItems.None? || declarationItems.value.value != declarations);
      if changed.value {
        declarationItems := Some(Versioned(declarations, token));
      }
    }
  }

  // ----- the order of the rows does not matter -----

  lemma {:induction false} ItemOrder()
    ensures TotalOrder(ItemLe)
  {
    forall a, b ensures ItemLe(a, b) || ItemLe(b, a) {
      LeTotal(a.identifier, b.identifier);
      LeTotal(a.serverToken, b.serverToken);
    }
    forall a, b | ItemLe(a, b) && ItemLe(b, a) ensures a == b {
      if a.identifier == b.identifier {
        LeAntisymmetric(a.serverToken, b.serverToken);
      } else {
        LeAntisymmetric(a.identifier, b.identifier);
      }
    }
    forall a, b, c | ItemLe(a, b) && ItemLe(b, c) ensures ItemLe(a, c) {
      ItemLeTransitive(a, b, c);
    }
  }

  lemma {:induction false} ItemLeTransitive(a: Item, b: Item, c: Item)
    requires ItemLe(a, b) && ItemLe(b, c)
    ensures ItemLe(a, c)
  {
    if a.identifier == b.identifier == c.identifier {
      LeTransitive(a.serverToken, b.serverToken, c.serverToken);
    } else if a.identifier != b.identifier && b.identifier != c.identifier {
      LeTransitive(a.identifier, b.identifier, c.identifier);
      if a.identifier == c.identifier {
        LeAntisymmetric(a.identifier, b.identifier);
      }
    }
  }

  /** Mapping by an injective function keeps permutations apart. */
  lemma {:induction false} MapInjective<A(!new), B>(f: A -> B, a: seq<A>, b: seq<A>)
    requires forall x, y | f(x) == f(y) :: x == y
    ensures multiset(Map(f, a)) == multiset(Map(f, b)) <==> multiset(a) == multiset(b)
  {
    forall x ensures multiset(Map(f, a))[f(x)] == multiset(a)[x] && multiset(Map(f, b))[f(x)] == multiset(b)[x] {
      MapCount(f, a, x);
      MapCount(f, b, x);
    }
    if multiset(a) == multiset(b) {
      MapPermuted(f, a, b);
    }
    if multiset(Map(f, a)) == multiset(Map(f, b)) {
      forall x ensures multiset(a)[x] == multiset(b)[x] {
        assert multiset(Map(f, a))[f(x)] == multiset(a)[x];
      }
    }
  }

  lemma {:induction false} MapCount<A(!new), B>(f: A -> B, s: seq<A>, x: A)
    requires forall x, y | f(x) == f(y) :: x == y
    ensures multiset(Map(f, s))[f(x)] == multiset(s)[x]
  {
    if s != [] {
      var front, last := s[..|s| - 1], s[|s| - 1];
      MapCount(f, front, x);
      assert s == front + [last];
    }
  }

  lemma {:induction false} SameFirstItem<T>(first: T, a: seq<T>, b: seq<T>)
    ensures multiset([first] + a) == multiset([first] + b) <==> multiset(a) == multiset(b)
  {
    assert multiset([first] + a) == multiset{first} + multiset(a);
    assert multiset([first] + b) == multiset{first} + multiset(b);
    assert multiset(a) == multiset([first] + a) - multiset{first};
    assert multiset(b) == multiset([first] + b) - multiset{first};
  }

  lemma {:induction false} IdentifierInjective(domain: string, a: string, b: string)
    ensures StatusReports.LegacyProfileIdentifier(domain, a) == StatusReports.LegacyProfileIdentifier(domain, b) ==>
            a == b
  {
    var n := |domain + "." + StatusReports.LEGACY_PROFILE + "."|;
    assert StatusReports.LegacyProfileIdentifier(domain, a)[n..] == a;
    assert StatusReports.LegacyProfileIdentifier(domain, b)[n..] == b;
  }

  /** The activation payload depends on the artifacts of the blueprint, not on their order. */
  lemma {:induction false} ActivationCanonical(domain: string, pk: string, a: seq<string>, b: seq<string>)
    ensures ActivationPayload(domain, pk, a) == ActivationPayload(domain, pk, b) <==> multiset(a) == multiset(b)
  {
    var first := BlueprintIdentifier(domain, pk, "management-status-subscriptions");
    var f := (a: string) => StatusReports.LegacyProfileIdentifier(domain, a);
    forall x, y | f(x) == f(y) ensures x == y {
      IdentifierInjective(domain, x, y);
    }
    MapInjective(f, a, b);
    SameFirstItem(first, Map(f, a), Map(f, b));
    SortCorrect([first] + Map(f, a));
    SortCorrect([first] + Map(f, b));
    if multiset(a) == multiset(b) {
      SortCanonical([first] + Map(f, a), [first] + Map(f, b));
    }
  }

  lemma {:induction false} ConfigurationsCanonical(domain: string, pk: string, a: seq<Latest>, b: seq<Latest>)
    ensures Configurations(domain, pk, a) == Configurations(domain, pk, b) <==> multiset(a) == multiset(b)
  {
    var first := Item(BlueprintIdentifier(domain, pk, "management-status-subscriptions"), "1");
    var f := (r: Latest) => Item(StatusReports.LegacyProfileIdentifier(domain, r.artifact), r.version);
    forall x, y | f(x) == f(y) ensures x == y {
      IdentifierInjective(domain, x.artifact, y.artifact);
    }
    MapInjective(f, a, b);
    SameFirstItem(first, Map(f, a), Map(f, b));
    ItemOrder();
    SortByCanonical(ItemLe, [first] + Map(f, a), [first] + Map(f, b));
  }

  // ----- runs -----

  function ActivationUpdates(domain: string, pk: string, artifacts: seq<seq<string>>,
      tokens: seq<string>): (r: seq<Update<seq<string>>>)
    requires |tokens| == |artifacts|
    ensures |r| == |artifacts|
    ensures forall k | 0 <= k < |r| :: r[k] == Update(ActivationPayload(domain, pk, artifacts[k]), tokens[k])
  {
    if artifacts == [] then []
    else
      var n := |artifacts| - 1;
      ActivationUpdates(domain, pk, artifacts[..n], tokens[..n]) +
          [Update(ActivationPayload(domain, pk, artifacts[n]), tokens[n])]
  }

  /** The ServerToken of the activation is the same after the i-th and the j-th update
      exactly when, up to order, the artifacts were the same all the time. */
  lemma {:induction false} ActivationTokens(domain: string, pk: string, stored: Option<Versioned<seq<string>>>,
                         artifacts: seq<seq<string>>, tokens: seq<string>, i: nat, j: nat)
    requires |tokens| == |artifacts| && i <= j < |artifacts|
    requires FreshTokens(stored, ActivationUpdates(domain, pk, artifacts, tokens))
    ensures var updates := ActivationUpdates(domain, pk, artifacts, tokens);
            RenewedAll(stored, updates[..i + 1]).value.token == RenewedAll(stored, updates[..j + 1]).value.token <==>
            forall k | i <= k <= j :: multiset(artifacts[k]) == multiset(artifacts[i])
  {
    TokenMeansSame(stored, ActivationUpdates(domain, pk, artifacts, tokens), i, j);
    forall k | i <= k <= j
      ensures ActivationPayload(domain, pk, artifacts[k]) == ActivationPayload(domain, pk, artifacts[i]) <==>
              multiset(artifacts[k]) == multiset(artifacts[i])
    {
      ActivationCanonical(domain, pk, artifacts[k], artifacts[i]);
    }
  }

  /** What an update of the declaration items finds. */
  datatype Found = Found(activationToken: string, rows: seq<Latest>)

  function ItemsUpdates(domain: string, pk: string, found: seq<Found>,
      tokens: seq<string>): (r: seq<Update<Declarations>>)
    requires |tokens| == |found|
    ensures |r| == |found|
    ensures forall k | 0 <= k < |r| ::
              r[k] == Update(DeclarationsOf(domain, pk, found[k].activationToken, found[k].rows), tokens[k])
  {
    if found == [] then []
    else
      var n := |found| - 1;
      ItemsUpdates(domain, pk, found[..n], tokens[..n])
      + [Update(DeclarationsOf(domain, pk, found[n].activationToken, found[n].rows), tokens[n])]
  }

  /** The DeclarationsToken is the same after two updates exactly when neither the
      activation nor, up to order, the latest profile versions changed. */
  lemma {:induction false} DeclarationsTokens(domain: string, pk: string, stored: Option<Versioned<Declarations>>,
                           found: seq<Found>, tokens: seq<string>, i: nat, j: nat)
    requires |tokens| == |found| && i <= j < |found|
    requires FreshTokens(stored, ItemsUpdates(domain, pk, found, tokens))
    ensures var updates := ItemsUpdates(domain, pk, found, tokens);
            RenewedAll(stored, updates[..i + 1]).value.token == RenewedAll(stored, updates[..j + 1]).value.token <==>
            forall k | i <= k <= j ::
              && found[k].activationToken == found[i].activationToken
              && multiset(found[k].rows) == multiset(found[i].rows)
  {
    TokenMeansSame(stored, ItemsUpdates(domain, pk, found, tokens), i, j);
    forall k | i <= k <= j
      ensures Configurations(domain, pk, found[k].rows) == Configurations(domain, pk, found[i].rows) <==>
              multiset(found[k].rows) == multiset(found[i].rows)
    {
      ConfigurationsCanonical(domain, pk, found[k].rows, found[i].rows);
    }
  }

  // ----- identifiers and order -----

  /** The identifiers of a blueprint are below its domain and key, and end in what they
      stand for. */
  lemma {:induction false} BlueprintIdentifierIs(domain: string, pk: string, suffix: string)
    requires '.' !in suffix
    ensures domain + ".blueprint." + pk + "." <= BlueprintIdentifier(domain, pk, suffix)
    ensures StatusReports.LastComponent(BlueprintIdentifier(domain, pk, suffix)) == suffix
  {
    StatusReports.LastComponentAfterDot(domain + ".blueprint." + pk, suffix);
  }

  lemma {:induction false} SubscriptionsIdentifier(domain: string, pk: string)
    ensures BlueprintIdentifier(domain, pk, "management-status-subscriptions") ==
            domain + ".blueprint." + pk + ".management-status-subscriptions"
  {
    assert "." + "management-status-subscriptions" == ".management-status-subscriptions";
  }

  /** The payload of the activation: the status subscriptions, and a profile for each
      artifact, in the order of their identifiers. */
  lemma {:induction false} ActivationIs(domain: string, pk: string, artifacts: seq<string>)
    ensures var payload := ActivationPayload(domain, pk, artifacts);
            && Sorted(payload)
            && multiset(payload) ==
               multiset{domain + ".blueprint." + pk + ".management-status-subscriptions"}
               + multiset(Map((a: string) => StatusReports.LegacyProfileIdentifier(domain, a), artifacts))
  {
    var subscriptions := BlueprintIdentifier(domain, pk, "management-status-subscriptions");
    SubscriptionsIdentifier(domain, pk);
    var profiles := Map((a: string) => StatusReports.LegacyProfileIdentifier(domain, a), artifacts);
    SortCorrect([subscriptions] + profiles);
    assert multiset([subscriptions] + profiles) == multiset{subscriptions} + multiset(profiles);
  }

  /** The declared configurations: the status subscriptions with the token "1", and each
      profile with its latest version as the token, in the order of identifiers and tokens. */
  lemma {:induction false} ConfigurationsAre(domain: string, pk: string, rows: seq<Latest>)
    ensures var items := Configurations(domain, pk, rows);
            && (forall i, j | 0 <= i < j < |items| ::
                  && Le(items[i].identifier, items[j].identifier)
                  && (items[i].identifier == items[j].identifier ==> Le(items[i].serverToken, items[j].serverToken)))
            && multiset(items) ==
               multiset{Item(BlueprintIdentifier(domain, pk, "management-status-subscriptions"), "1")}
               + multiset(Map((r: Latest) =>
                   Item(StatusReports.LegacyProfileIdentifier(domain, r.artifact), r.version), rows))
  {
    var subscriptions := Item(BlueprintIdentifier(domain, pk, "management-status-subscriptions"), "1");
    var profiles :=
      Map((r: Latest) => Item(StatusReports.LegacyProfileIdentifier(domain, r.artifact), r.version), rows);
    ItemOrder();
    SortByCorrect(ItemLe, [subscriptions] + profiles);
    assert multiset([subscriptions] + profiles) == multiset{subscriptions} + multiset(profiles);
    var items := Configurations(domain, pk, rows);
    forall i, j | 0 <= i < j < |items|
      ensures Le(items[i].identifier, items[j].identifier)
      ensures items[i].identifier == items[j].identifier ==> Le(items[i].serverToken, items[j].serverToken)
    {
      assert ItemLe(items[i], items[j]);
      LeTotal(items[i].identifier, items[i].identifier);
    }
  }
}
