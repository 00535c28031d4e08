/**
 What a run of the catalog backfill does to each table, told row by row in terms of the tables
 themselves: which rows are new, with what in them, who is granted what, and what presets and default
 settings point to.
 */
module CatalogEffect {
  import opened Common
  import opened CatalogBackfill

  // ---- what is asked for

  /** The organization has a credential for the provider. */
  ghost predicate Holds(s: Source, org: int, provider: string) {
    Secret(org, "agent-" + provider + "-credentials") in s.secrets
  }

  ghost function Blob(s: Source, org: int, provider: string): int
    requires Holds(s, org, provider)
  {
    s.secrets[Secret(org, "agent-" + provider + "-credentials")]
  }

  /** The row of a cloud provider: named twice after it, without a custom provider. */
  ghost predicate CloudRow(s: Source, plan: Plan, org: int, k: Key) {
    k == Key(Some(org), None, k.provider, k.provider) && k.provider in plan.cloud && Holds(s, org, k.provider)
  }

  ghost predicate Owns(d: Db, org: int, p: int) {
    p in d.providers && d.providers[p].org == org
  }

  /** The row linked to the organization's custom provider. */
  ghost predicate CustomProviderRow(s: Source, d: Db, org: int, k: Key) {
    && Holds(s, org, "custom-model-provider") && k.custom.Some? && Owns(d, org, k.custom.value)
    && k == Key(Some(org), k.custom, "custom-model-provider", "custom")
  }

  ghost predicate OwnRow(s: Source, plan: Plan, d: Db, org: int, k: Key) {
    CloudRow(s, plan, org, k) || CustomProviderRow(s, d, org, k)
  }

  /** A platform row of a direct provider the organization has a credential for. */
  ghost predicate DirectRow(s: Source, plan: Plan, org: int, k: Key) {
    k.org.None? && k.custom.None? && k.provider in plan.direct && Holds(s, org, k.provider)
  }

  /** The row a model name or preset resolves to: a platform row where one fits, else the organization's. */
  ghost predicate Fits(org: int, provider: Option<string>, model: string, k: Key) {
    k.model == model && (provider.Some? ==> k.provider == provider.value) && (k.org == None || k.org == Some(org))
  }

  ghost predicate Resolves(d: Db, org: int, provider: Option<string>, model: string, id: int) {
    exists k ::
      && HasId(d, k, id) && (forall l :: HasId(d, l, id) ==> l == k)
      && Fits(org, provider, model, k)
      && (k.org.Some? ==> forall x :: x in d.catalog && Fits(org, provider, model, x) ==> x.org.Some?)
  }

  ghost predicate SomeFits(d: Db, org: int, provider: Option<string>, model: string) {
    exists k :: k in d.catalog && Fits(org, provider, model, k)
  }

  // ---- the steps for one organization

  ghost predicate RowsKept(d: Db, d': Db) {
    forall k :: k in d.catalog ==> k in d'.catalog && d'.catalog[k] == d.catalog[k]
  }

  /** The organization's own rows are there; those that were not hold its encrypted credential. */
  ghost predicate RowsAdded(s: Source, plan: Plan, d: Db, d': Db, org: int) {
    && (forall k :: OwnRow(s, plan, d', org, k) ==> k in d'.catalog)
    && (forall k :: k in d'.catalog && k !in d.catalog ==>
          OwnRow(s, plan, d', org, k) && d'.catalog[k].config == Some(Blob(s, org, k.provider)) && d'.catalog[k].metadata == 0)
  }

  ghost predicate Granted(d: Db, org: int, k: Key) {
    k in d.catalog && Grant(org, None, d.catalog[k].id) in d.grants
  }

  /** A grant is new only for a row that is granted by design, and each of those is granted. */
  ghost predicate GrantsAdded(s: Source, plan: Plan, d: Db, d': Db, org: int) {
    && (forall g :: g in d.grants ==> g in d'.grants)
    && (forall k :: k in d'.catalog && (OwnRow(s, plan, d', org, k) || DirectRow(s, plan, org, k)) ==> Granted(d', org, k))
    && (forall g :: g in d'.grants && g !in d.grants ==>
          && g.org == org && g.workspace == None
          && exists k :: HasId(d', k, g.catalogId) && (OwnRow(s, plan, d', org, k) || DirectRow(s, plan, org, k)))
  }

  /** An organization with a custom credential has one custom provider: the one it had, or else one that
      holds the credential. */
  ghost predicate ProvidersAdded(s: Source, d: Db, d': Db, org: int) {
    && (forall p :: p in d.providers ==> p in d'.providers && d'.providers[p] == d.providers[p])
    && (forall p :: p in d'.providers && p !in d.providers ==>
          && Holds(s, org, "custom-model-provider") && d'.providers[p] == Provider(org, Blob(s, org, "custom-model-provider"))
          && forall q :: !Owns(d, org, q))
    && (Holds(s, org, "custom-model-provider") ==> exists p :: Owns(d', org, p) && forall q :: Owns(d', org, q) ==> q == p)
  }

  ghost predicate LegacyModel(s: Source, org: int, model: string) {
    org in s.legacy && s.legacy[org] == Legacy(false, Some(model)) && model != ""
  }

  /** A default is set exactly for an organization without one whose unencrypted legacy value names a model
      that some visible row has; and it is the id of the row the name resolves to. */
  ghost predicate DefaultSet(s: Source, d: Db, d': Db, org: int) {
    && (org in d.defaults ==> org in d'.defaults && d'.defaults[org] == d.defaults[org])
    && (org !in d.defaults ==>
          (org in d'.defaults <==> exists m :: LegacyModel(s, org, m) && SomeFits(d', org, None, m)))
    && (org !in d.defaults && org in d'.defaults ==>
          exists m :: LegacyModel(s, org, m) && Resolves(d', org, None, m, d'.defaults[org]))
  }

  ghost predicate DefaultsKept(d: Db, d': Db, org: int) {
    forall o :: o != org ==> (o in d.defaults <==> o in d'.defaults) && (o in d.defaults ==> d'.defaults[o] == d.defaults[o])
  }

  // ---- custom provider

  /** One row and one grant for the organization's custom provider, and nothing else. */
  ghost predicate CustomAdded(s: Source, d: Db, d': Db, org: int) {
    && RowsKept(d, d') && d'.defaults == d.defaults
    && (forall k :: CustomProviderRow(s, d', org, k) ==> Granted(d', org, k))
    && (forall k :: k in d'.catalog && k !in d.catalog ==>
          CustomProviderRow(s, d', org, k) && d'.catalog[k].config == Some(Blob(s, org, k.provider)) && d'.catalog[k].metadata == 0)
    && (forall g :: g in d.grants ==> g in d'.grants)
    && (forall g :: g in d'.grants && g !in d.grants ==>
          g.org == org && g.workspace == None && exists k :: HasId(d', k, g.catalogId) && CustomProviderRow(s, d', org, k))
  }

  lemma CustomRowEffect(s: Source, d: Db, org: int, p: int)
    requires Holds(s, org, "custom-model-provider") && Owns(d, org, p) && forall q :: Owns(d, org, q) ==> q == p
    ensures CustomAdded(s, d, CustomRow(d, org, p, Blob(s, org, "custom-model-provider")), org)
    ensures CustomRow(d, org, p, Blob(s, org, "custom-model-provider")).providers == d.providers
  {
    var d' := CustomRow(d, org, p, Blob(s, org, "custom-model-provider"));
    var row := Key(Some(org), Some(p), "custom-model-provider", "custom");
    assert row == CustomKey(org, p);
    forall k ensures CustomProviderRow(s, d', org, k) <==> k == row {
      if CustomProviderRow(s, d', org, k) {
        assert Owns(d, org, k.custom.value);
      }
    }
    assert HasId(d', row, d'.catalog[row].id);
  }

  lemma OnlyOwner(d: Db, org: int, p: int)
    requires ProvidersOf(d, org) == {p}
    ensures Owns(d, org, p) && forall q :: Owns(d, org, q) ==> q == p
  {
    assert p in ProvidersOf(d, org);
    forall q | Owns(d, org, q) ensures q == p {
      assert q in ProvidersOf(d, org);
    }
  }

  lemma SameBase(s: Source, d: Db, d1: Db, d': Db, org: int)
    requires CustomAdded(s, d1, d', org) && d1.catalog == d.catalog && d1.grants == d.grants && d1.defaults == d.defaults
    ensures CustomAdded(s, d, d', org)
  {
  }

  lemma NewProvider(s: Source, d: Db, org: int)
    requires FreshIds(d) && Holds(s, org, "custom-model-provider") && forall q :: !Owns(d, org, q)
    ensures ProvidersAdded(s, d, WithProvider(d, org, Blob(s, org, "custom-model-provider")), org)
    ensures Owns(WithProvider(d, org, Blob(s, org, "custom-model-provider")), org, d.nextId)
  {
    var d1 := WithProvider(d, org, Blob(s, org, "custom-model-provider"));
    assert d.nextId !in d.providers;
    assert Owns(d1, org, d.nextId);
    forall q | Owns(d1, org, q) ensures q == d.nextId {
      assert !Owns(d, org, q);
    }
  }

  lemma SameProviders(s: Source, d: Db, d1: Db, d2: Db, org: int)
    requires ProvidersAdded(s, d, d1, org) && d2.providers == d1.providers
    ensures ProvidersAdded(s, d, d2, org)
  {
    assert forall p :: Owns(d1, org, p) <==> Owns(d2, org, p);
  }

  lemma CustomEffect(s: Source, d: Db, org: int)
    requires FreshIds(d) && MigrateCustom(s, d, org).Ok?
    ensures ProvidersAdded(s, d, MigrateCustom(s, d, org).value, org) && CustomAdded(s, d, MigrateCustom(s, d, org).value, org)
  {
    if CredentialOf(org, CUSTOM_SLUG) in s.secrets {
      assert Holds(s, org, "custom-model-provider");
      var blob := Blob(s, org, "custom-model-provider");
      var p, isNew := CustomCases(s, d, org);
      var d1 := if isNew then WithProvider(d, org, blob) else d;
      if isNew {
        NewProvider(s, d, org);
        assert forall q :: Owns(d1, org, q) ==> q == p;
      } else {
        OnlyOwner(d, org, p);
        assert ProvidersAdded(s, d, d1, org);
      }
      CustomRowEffect(s, d1, org, p);
      var d' := CustomRow(d1, org, p, blob);
      SameBase(s, d, d1, d', org);
      SameProviders(s, d, d1, d', org);
    } else {
      NoCustom(s, d, org);
    }
  }

  lemma NoCustom(s: Source, d: Db, org: int)
    requires !Holds(s, org, "custom-model-provider")
    ensures ProvidersAdded(s, d, d, org) && CustomAdded(s, d, d, org)
  {
  }

  // ---- cloud providers

  /** Rows and grants of the cloud providers listed, and nothing else. */
  ghost predicate CloudsAdded(s: Source, cloud: seq<string>, d: Db, d': Db, org: int) {
    && RowsKept(d, d') && d'.providers == d.providers && d'.defaults == d.defaults
    && (forall p :: p in cloud && Holds(s, org, p) ==> Granted(d', org, Key(Some(org), None, p, p)))
    && (forall k :: k in d'.catalog && k !in d.catalog ==>
          && k == Key(Some(org), None, k.provider, k.provider) && k.provider in cloud && Holds(s, org, k.provider)
          && d'.catalog[k].config == Some(Blob(s, org, k.provider)) && d'.catalog[k].metadata == 0)
    && (forall g :: g in d.grants ==> g in d'.grants)
    && (forall g :: g in d'.grants && g !in d.grants ==>
          g.org == org && g.workspace == None && exists p :: p in cloud && Holds(s, org, p) && HasId(d', Key(Some(org), None, p, p), g.catalogId))
  }

  lemma CloudEffect(s: Source, d: Db, org: int, p: string)
    ensures CloudsAdded(s, [p], d, MigrateCloud(s, d, org, p), org)
  {
    var d' := MigrateCloud(s, d, org, p);
    if CredentialOf(org, p) in s.secrets {
      assert Holds(s, org, p);
      assert HasId(d', Key(Some(org), None, p, p), d'.catalog[CloudKey(org, p)].id);
    }
  }

  lemma CloudsCompose(s: Source, p: string, rest: seq<string>, cloud: seq<string>, a: Db, b: Db, c: Db, org: int)
    requires cloud == [p] + rest && CloudsAdded(s, [p], a, b, org) && CloudsAdded(s, rest, b, c, org)
    ensures CloudsAdded(s, cloud, a, c, org)
  {
    assert forall q :: q in cloud <==> q == p || q in rest;
    forall g | g in c.grants && g !in a.grants
      ensures g.org == org && g.workspace == None && exists q :: q in cloud && Holds(s, org, q) && HasId(c, Key(Some(org), None, q, q), g.catalogId)
    {
      if g in b.grants {
        var q :| q in [p] && Holds(s, org, q) && HasId(b, Key(Some(org), None, q, q), g.catalogId);
        assert q in cloud && HasId(c, Key(Some(org), None, q, q), g.catalogId);
      } else {
        var q :| q in rest && Holds(s, org, q) && HasId(c, Key(Some(org), None, q, q), g.catalogId);
        assert q in cloud;
      }
    }
  }

  lemma {:induction false} CloudsEffect(s: Source, d: Db, org: int, cloud: seq<string>)
    ensures CloudsAdded(s, cloud, d, MigrateClouds(s, d, org, cloud), org)
    decreases |cloud|
  {
    if cloud != [] {
      var d' := MigrateCloud(s, d, org, cloud[0]);
      CloudEffect(s, d, org, cloud[0]);
      CloudsEffect(s, d', org, cloud[1..]);
      assert cloud == [cloud[0]] + cloud[1..];
      CloudsCompose(s, cloud[0], cloud[1..], cloud, d, d', MigrateClouds(s, d', org, cloud[1..]), org);
    }
  }

  // ---- direct providers

  ghost predicate PlatformOf(k: Key, p: string) { k.org.None? && k.custom.None? && k.provider == p }

  /** Grants of the platform rows of the direct providers listed, and nothing else. */
  ghost predicate DirectsAdded(s: Source, direct: seq<string>, d: Db, d': Db, org: int) {
    && d' == d.(grants := d'.grants)
    && (forall g :: g in d'.grants <==>
          || g in d.grants
          || (g.org == org && g.workspace == None
              && exists k, p :: HasId(d, k, g.catalogId) && PlatformOf(k, p) && p in direct && Holds(s, org, p)))
  }

  lemma DirectEffect(s: Source, d: Db, org: int, p: string)
    ensures DirectsAdded(s, [p], d, GrantDirect(s, d, org, p), org)
  {
    var d' := GrantDirect(s, d, org, p);
    forall g
      ensures g in d'.grants <==>
                || g in d.grants
                || (g.org == org && g.workspace == None
                    && exists k, q :: HasId(d, k, g.catalogId) && PlatformOf(k, q) && q in [p] && Holds(s, org, q))
    {
      if g in d'.grants && g !in d.grants {
        assert g.catalogId in PlatformIds(d, p);
        var k :| k in d.catalog && k.org.None? && k.custom.None? && k.provider == p && d.catalog[k].id == g.catalogId;
        assert HasId(d, k, g.catalogId) && PlatformOf(k, p) && p in [p] && Holds(s, org, p);
      }
      if g.org == org && g.workspace == None {
        if k, q :| HasId(d, k, g.catalogId) && PlatformOf(k, q) && q in [p] && Holds(s, org, q) {
          assert q == p && g.catalogId in PlatformIds(d, p);
          assert g == Grant(org, None, g.catalogId);
        }
      }
    }
  }

  lemma {:induction false} DirectsEffect(s: Source, d: Db, org: int, direct: seq<string>)
    ensures DirectsAdded(s, direct, d, GrantDirects(s, d, org, direct), org)
    decreases |direct|
  {
    if direct != [] {
      var d' := GrantDirect(s, d, org, direct[0]);
      DirectEffect(s, d, org, direct[0]);
      DirectsEffect(s, d', org, direct[1..]);
      DirectsCompose(s, direct[0], direct[1..], direct, d, d', GrantDirects(s, d', org, direct[1..]), org);
    }
  }

  lemma DirectsCompose(s: Source, p: string, rest: seq<string>, direct: seq<string>, a: Db, b: Db, c: Db, org: int)
    requires direct != [] && p == direct[0] && rest == direct[1..]
    requires DirectsAdded(s, [p], a, b, org) && DirectsAdded(s, rest, b, c, org)
    ensures DirectsAdded(s, direct, a, c, org)
  {
    assert forall q :: q in direct <==> q in [p] || q in rest;
    assert forall k, id :: HasId(a, k, id) <==> HasId(b, k, id);
  }

  // ---- the default model

  lemma DefaultEffect(s: Source, d: Db, org: int, choose: set<int> -> int)
    requires FreshIds(d) && Fair(choose)
    ensures var d' := SetDefault(s, d, org, choose);
            DefaultSet(s, d, d', org) && DefaultsKept(d, d', org) && d' == d.(defaults := d'.defaults)
  {
    var d' := SetDefault(s, d, org, choose);
    forall m | LegacyModel(s, org, m) ensures SomeFits(d', org, None, m) <==> ByModel(d, org, m) != {} {
      if k :| k in d.catalog && Fits(org, None, m, k) {
        assert k in ByModel(d, org, m);
      }
      if ByModel(d, org, m) != {} {
        var k :| k in ByModel(d, org, m);
        assert k in d'.catalog && Fits(org, None, m, k);
      }
    }
    if WantsDefault(s, d, org) {
      var m := s.legacy[org].model.value;
      assert LegacyModel(s, org, m);
      var keys := ByModel(d, org, m);
      SomeCandidate(d, keys);
      var id := choose(Candidates(d, keys));
      assert id in Candidates(d, keys);
      var k := CandidateRow(d, keys, id);
      assert HasId(d', k, id);
      assert forall x :: x in d'.catalog && Fits(org, None, m, x) ==> x in keys;
      assert Resolves(d', org, None, m, id);
    } else if org !in d.defaults {
      forall m | LegacyModel(s, org, m) ensures !SomeFits(d', org, None, m) {
      }
    }
  }

  // ---- one organization, all steps

  ghost predicate OrgEffect(s: Source, plan: Plan, d: Db, d': Db, org: int) {
    && RowsKept(d, d') && RowsAdded(s, plan, d, d', org) && GrantsAdded(s, plan, d, d', org)
    && ProvidersAdded(s, d, d', org) && DefaultSet(s, d, d', org) && DefaultsKept(d, d', org)
    && d'.presets == d.presets && d'.versions == d.versions
  }

  lemma RowsEffect(s: Source, plan: Plan, d: Db, d1: Db, d2: Db, org: int)
    requires CustomAdded(s, d, d1, org) && CloudsAdded(s, plan.cloud, d1, d2, org)
    ensures RowsKept(d, d2) && RowsAdded(s, plan, d, d2, org)
  {
    assert forall k :: CustomProviderRow(s, d1, org, k) <==> CustomProviderRow(s, d2, org, k);
    forall k | OwnRow(s, plan, d2, org, k) ensures k in d2.catalog {
      if CloudRow(s, plan, org, k) {
        assert Granted(d2, org, Key(Some(org), None, k.provider, k.provider));
      }
    }
  }

  /** New grants of the custom and the cloud step, and then of the direct step. */
  lemma GrantsEffect(s: Source, plan: Plan, d: Db, d1: Db, d2: Db, d3: Db, org: int)
    requires CustomAdded(s, d, d1, org) && CloudsAdded(s, plan.cloud, d1, d2, org) && DirectsAdded(s, plan.direct, d2, d3, org)
    ensures GrantsAdded(s, plan, d, d3, org)
  {
    assert forall k :: CustomProviderRow(s, d1, org, k) <==> CustomProviderRow(s, d3, org, k);
    forall k | k in d3.catalog && (OwnRow(s, plan, d3, org, k) || DirectRow(s, plan, org, k)) ensures Granted(d3, org, k) {
      if CloudRow(s, plan, org, k) {
        assert Granted(d2, org, Key(Some(org), None, k.provider, k.provider));
      } else if DirectRow(s, plan, org, k) {
        assert HasId(d2, k, d3.catalog[k].id) && PlatformOf(k, k.provider);
      }
    }
    forall g | g in d3.grants && g !in d.grants
      ensures g.org == org && g.workspace == None
      ensures exists k :: HasId(d3, k, g.catalogId) && (OwnRow(s, plan, d3, org, k) || DirectRow(s, plan, org, k))
    {
      if g in d1.grants {
        var k :| HasId(d1, k, g.catalogId) && CustomProviderRow(s, d1, org, k);
        assert HasId(d3, k, g.catalogId) && OwnRow(s, plan, d3, org, k);
      } else if g in d2.grants {
        var p :| p in plan.cloud && Holds(s, org, p) && HasId(d2, Key(Some(org), None, p, p), g.catalogId);
        assert HasId(d3, Key(Some(org), None, p, p), g.catalogId) && CloudRow(s, plan, org, Key(Some(org), None, p, p));
      } else {
        var k, p :| HasId(d2, k, g.catalogId) && PlatformOf(k, p) && p in plan.direct && Holds(s, org, p);
        assert HasId(d3, k, g.catalogId) && DirectRow(s, plan, org, k);
      }
    }
  }

  /** The last step only touches the defaults. */
  lemma SameTables(s: Source, plan: Plan, d: Db, d2: Db, d3: Db, d4: Db, org: int)
    requires d3 == d2.(grants := d3.grants) && d4 == d3.(defaults := d4.defaults) && d.defaults == d3.defaults
    requires RowsKept(d, d2) && RowsAdded(s, plan, d, d2, org) && GrantsAdded(s, plan, d, d3, org) && ProvidersAdded(s, d, d2, org)
    requires DefaultSet(s, d3, d4, org) && DefaultsKept(d3, d4, org) && d4.presets == d.presets && d4.versions == d.versions
    ensures OrgEffect(s, plan, d, d4, org)
  {
    assert forall k :: OwnRow(s, plan, d2, org, k) <==> OwnRow(s, plan, d4, org, k);
    assert forall k :: OwnRow(s, plan, d3, org, k) <==> OwnRow(s, plan, d4, org, k);
    assert forall k, id :: HasId(d3, k, id) <==> HasId(d4, k, id);
    assert forall p :: Owns(d2, org, p) <==> Owns(d4, org, p);
    assert forall k :: Granted(d3, org, k) <==> Granted(d4, org, k);
  }

  /** The steps put together. */
  lemma StepsTogether(s: Source, plan: Plan, d: Db, d1: Db, d2: Db, d3: Db, d4: Db, org: int)
    requires ProvidersAdded(s, d, d1, org) && CustomAdded(s, d, d1, org)
    requires CloudsAdded(s, plan.cloud, d1, d2, org) && DirectsAdded(s, plan.direct, d2, d3, org)
    requires DefaultSet(s, d3, d4, org) && DefaultsKept(d3, d4, org) && d4 == d3.(defaults := d4.defaults)
    requires d4.presets == d.presets && d4.versions == d.versions
    ensures OrgEffect(s, plan, d, d4, org)
  {
    RowsEffect(s, plan, d, d1, d2, org);
    GrantsEffect(s, plan, d, d1, d2, d3, org);
    SameProviders(s, d, d1, d2, org);
    SameTables(s, plan, d, d2, d3, d4, org);
  }

  lemma BackfillOrgEffect(s: Source, plan: Plan, d: Db, org: int)
    requires FreshIds(d) && Fair(plan.choose) && BackfillOrg(s, plan, d, org).Ok?
    ensures OrgEffect(s, plan, d, BackfillOrg(s, plan, d, org).value, org)
  {
    var d1 := MigrateCustom(s, d, org).value;
    var d2 := MigrateClouds(s, d1, org, plan.cloud);
    var d3 := GrantDirects(s, d2, org, plan.direct);
    CustomEffect(s, d, org);
    CustomGrows(s, d, org);
    CloudsEffect(s, d1, org, plan.cloud);
    CloudsGrow(s, d1, org, plan.cloud);
    DirectsEffect(s, d2, org, plan.direct);
    DirectsGrow(s, d2, org, plan.direct);
    DefaultEffect(s, d3, org, plan.choose);
    OrgGrows(s, plan, d, org);
    StepsTogether(s, plan, d, d1, d2, d3, SetDefault(s, d3, org, plan.choose), org);
  }

  // ---- all organizations

  ghost predicate NewRow(s: Source, plan: Plan, d: Db, org: int, k: Key)
    requires k in d.catalog
  {
    OwnRow(s, plan, d, org, k) && d.catalog[k].config == Some(Blob(s, org, k.provider)) && d.catalog[k].metadata == 0
  }

  ghost predicate AllRows(s: Source, plan: Plan, d: Db, d': Db, orgs: seq<int>) {
    && RowsKept(d, d')
    && (forall o, k :: o in orgs && OwnRow(s, plan, d', o, k) ==> k in d'.catalog)
    && (forall k :: k in d'.catalog && k !in d.catalog ==> exists o :: o in orgs && NewRow(s, plan, d', o, k))
  }

  ghost predicate ByDesign(s: Source, plan: Plan, d: Db, org: int, k: Key) {
    OwnRow(s, plan, d, org, k) || DirectRow(s, plan, org, k)
  }

  ghost predicate AllGrants(s: Source, plan: Plan, d: Db, d': Db, orgs: seq<int>) {
    && (forall g :: g in d.grants ==> g in d'.grants)
    && (forall o, k :: o in orgs && k in d'.catalog && ByDesign(s, plan, d', o, k) ==> Granted(d', o, k))
    && (forall g :: g in d'.grants && g !in d.grants ==>
          g.org in orgs && g.workspace == None && exists k :: HasId(d', k, g.catalogId) && ByDesign(s, plan, d', g.org, k))
  }

  ghost predicate OneOwned(d: Db, org: int) {
    exists p :: Owns(d, org, p) && forall q :: Owns(d, org, q) ==> q == p
  }

  ghost predicate AllProviders(s: Source, d: Db, d': Db, orgs: seq<int>) {
    && (forall p :: p in d.providers ==> p in d'.providers && d'.providers[p] == d.providers[p])
    && (forall p :: p in d'.providers && p !in d.providers ==>
          var o := d'.providers[p].org;
          && o in orgs && Holds(s, o, "custom-model-provider") && d'.providers[p].config == Blob(s, o, "custom-model-provider")
          && forall q :: !Owns(d, o, q))
    && (forall o :: o in orgs && Holds(s, o, "custom-model-provider") ==> OneOwned(d', o))
  }

  ghost predicate AllDefaults(s: Source, d: Db, d': Db, orgs: seq<int>) {
    && (forall o :: o in d.defaults ==> o in d'.defaults && d'.defaults[o] == d.defaults[o])
    && (forall o :: o !in d.defaults ==>
          (o in d'.defaults <==> o in orgs && exists m :: LegacyModel(s, o, m) && SomeFits(d', o, None, m)))
    && (forall o :: o in d'.defaults && o !in d.defaults ==>
          exists m :: LegacyModel(s, o, m) && Resolves(d', o, None, m, d'.defaults[o]))
  }

  ghost predicate OrgsEffect(s: Source, plan: Plan, d: Db, d': Db, orgs: seq<int>) {
    && AllRows(s, plan, d, d', orgs) && AllGrants(s, plan, d, d', orgs)
    && AllProviders(s, d, d', orgs) && AllDefaults(s, d, d', orgs)
    && d'.presets == d.presets && d'.versions == d.versions
  }

  /** An organization's providers are settled once its own steps are done. */
  lemma ProvidersStay(s: Source, d: Db, b: Db, c: Db, org: int, rest: seq<int>)
    requires ProvidersAdded(s, d, b, org) && AllProviders(s, b, c, rest) && Holds(s, org, "custom-model-provider")
    ensures forall p :: Owns(c, org, p) <==> Owns(b, org, p)
  {
    var p0 :| Owns(b, org, p0) && forall q :: Owns(b, org, q) ==> q == p0;
  }

  lemma OwnRowsStay(s: Source, plan: Plan, d: Db, b: Db, c: Db, org: int, rest: seq<int>)
    requires ProvidersAdded(s, d, b, org) && AllProviders(s, b, c, rest)
    ensures forall k :: OwnRow(s, plan, c, org, k) <==> OwnRow(s, plan, b, org, k)
  {
    if Holds(s, org, "custom-model-provider") {
      ProvidersStay(s, d, b, c, org, rest);
    }
  }

  lemma RowsCompose(s: Source, plan: Plan, d: Db, b: Db, c: Db, org: int, rest: seq<int>, orgs: seq<int>)
    requires RowsKept(d, b) && RowsAdded(s, plan, d, b, org) && AllRows(s, plan, b, c, rest)
    requires forall k :: OwnRow(s, plan, c, org, k) <==> OwnRow(s, plan, b, org, k)
    requires forall o :: o in orgs <==> o == org || o in rest
    ensures AllRows(s, plan, d, c, orgs)
  {
    forall k | k in c.catalog && k !in d.catalog ensures exists o :: o in orgs && NewRow(s, plan, c, o, k) {
      if k in b.catalog {
        assert NewRow(s, plan, c, org, k);
      } else {
        var o :| o in rest && NewRow(s, plan, c, o, k);
        assert o in orgs;
      }
    }
  }

  lemma GrantsCompose(s: Source, plan: Plan, d: Db, b: Db, c: Db, org: int, rest: seq<int>, orgs: seq<int>)
    requires RowsAdded(s, plan, d, b, org) && GrantsAdded(s, plan, d, b, org) && AllRows(s, plan, b, c, rest) && AllGrants(s, plan, b, c, rest)
    requires forall k :: OwnRow(s, plan, c, org, k) <==> OwnRow(s, plan, b, org, k)
    requires forall o :: o in orgs <==> o == org || o in rest
    ensures AllGrants(s, plan, d, c, orgs)
  {
    forall k | k in c.catalog && ByDesign(s, plan, c, org, k) ensures Granted(c, org, k) {
      assert k in b.catalog;
      assert Granted(b, org, k);
    }
    forall g | g in c.grants && g !in d.grants
      ensures g.org in orgs && g.workspace == None && exists k :: HasId(c, k, g.catalogId) && ByDesign(s, plan, c, g.org, k)
    {
      if g in b.grants {
        var k :| HasId(b, k, g.catalogId) && (OwnRow(s, plan, b, org, k) || DirectRow(s, plan, org, k));
        assert HasId(c, k, g.catalogId) && ByDesign(s, plan, c, org, k);
      }
    }
  }

  lemma ProvidersCompose(s: Source, d: Db, b: Db, c: Db, org: int, rest: seq<int>, orgs: seq<int>)
    requires ProvidersAdded(s, d, b, org) && AllProviders(s, b, c, rest)
    requires forall o :: o in orgs <==> o == org || o in rest
    ensures AllProviders(s, d, c, orgs)
  {
    if Holds(s, org, "custom-model-provider") {
      ProvidersStay(s, d, b, c, org, rest);
      var p :| Owns(b, org, p) && forall q :: Owns(b, org, q) ==> q == p;
      assert Owns(c, org, p) && forall q :: Owns(c, org, q) ==> q == p;
    }
    forall p | p in c.providers && p !in d.providers ensures forall q :: !Owns(d, c.providers[p].org, q) {
      forall q ensures !Owns(d, c.providers[p].org, q) {
        if p !in b.providers {
          assert !Owns(b, c.providers[p].org, q);
        }
      }
    }
  }

  /** Rows that come later fit no model name of this organization. */
  lemma FitsStay(s: Source, plan: Plan, d: Db, b: Db, c: Db, org: int, rest: seq<int>, k: Key, m: string)
    requires RowsAdded(s, plan, d, b, org) && AllRows(s, plan, b, c, rest)
    requires forall k :: OwnRow(s, plan, c, org, k) <==> OwnRow(s, plan, b, org, k)
    requires k in c.catalog && Fits(org, None, m, k)
    ensures k in b.catalog
  {
  }

  lemma ResolvesStays(b: Db, c: Db, org: int, m: string, id: int)
    requires Resolves(b, org, None, m, id) && RowsKept(b, c) && FreshIds(c)
    requires forall k :: k in c.catalog && Fits(org, None, m, k) ==> k in b.catalog
    ensures Resolves(c, org, None, m, id)
  {
    var k :| && HasId(b, k, id) && (forall l :: HasId(b, l, id) ==> l == k)
             && Fits(org, None, m, k)
             && (k.org.Some? ==> forall x :: x in b.catalog && Fits(org, None, m, x) ==> x.org.Some?);
    assert HasId(c, k, id);
    assert forall l :: HasId(c, l, id) ==> l == k;
  }

  lemma SomeFitsStays(s: Source, plan: Plan, d: Db, b: Db, c: Db, org: int, rest: seq<int>, m: string)
    requires RowsAdded(s, plan, d, b, org) && AllRows(s, plan, b, c, rest)
    requires forall k :: OwnRow(s, plan, c, org, k) <==> OwnRow(s, plan, b, org, k)
    ensures SomeFits(c, org, None, m) <==> SomeFits(b, org, None, m)
  {
    if k :| k in c.catalog && Fits(org, None, m, k) {
      FitsStay(s, plan, d, b, c, org, rest, k, m);
    }
    if k :| k in b.catalog && Fits(org, None, m, k) {
      assert k in c.catalog;
    }
  }

  /** The default set in the organization's own steps still is what the name resolves to. */
  lemma DefaultStays(s: Source, plan: Plan, d: Db, b: Db, c: Db, org: int, rest: seq<int>)
    requires RowsAdded(s, plan, d, b, org) && AllRows(s, plan, b, c, rest) && FreshIds(c)
    requires DefaultSet(s, d, b, org) && org in b.defaults && org !in d.defaults
    requires forall k :: OwnRow(s, plan, c, org, k) <==> OwnRow(s, plan, b, org, k)
    ensures exists m :: LegacyModel(s, org, m) && Resolves(c, org, None, m, b.defaults[org])
  {
    var m :| LegacyModel(s, org, m) && Resolves(b, org, None, m, b.defaults[org]);
    forall k | k in c.catalog && Fits(org, None, m, k) ensures k in b.catalog {
      FitsStay(s, plan, d, b, c, org, rest, k, m);
    }
    ResolvesStays(b, c, org, m, b.defaults[org]);
  }

  /** Defaults of both parts, once those of the first are known to last. */
  lemma DefaultsJoin(s: Source, d: Db, b: Db, c: Db, org: int, rest: seq<int>, orgs: seq<int>)
    requires DefaultSet(s, d, b, org) && DefaultsKept(d, b, org) && AllDefaults(s, b, c, rest)
    requires forall o :: o in orgs <==> o == org || o in rest
    requires forall m :: SomeFits(c, org, None, m) <==> SomeFits(b, org, None, m)
    requires org in b.defaults && org !in d.defaults ==> exists m :: LegacyModel(s, org, m) && Resolves(c, org, None, m, b.defaults[org])
    ensures AllDefaults(s, d, c, orgs)
  {
  }

  lemma DefaultsCompose(s: Source, plan: Plan, d: Db, b: Db, c: Db, org: int, rest: seq<int>, orgs: seq<int>)
    requires RowsAdded(s, plan, d, b, org) && AllRows(s, plan, b, c, rest) && FreshIds(c)
    requires DefaultSet(s, d, b, org) && DefaultsKept(d, b, org) && AllDefaults(s, b, c, rest)
    requires forall k :: OwnRow(s, plan, c, org, k) <==> OwnRow(s, plan, b, org, k)
    requires forall o :: o in orgs <==> o == org || o in rest
    ensures AllDefaults(s, d, c, orgs)
  {
    forall m ensures SomeFits(c, org, None, m) <==> SomeFits(b, org, None, m) {
      SomeFitsStays(s, plan, d, b, c, org, rest, m);
    }
    if org in b.defaults && org !in d.defaults {
      DefaultStays(s, plan, d, b, c, org, rest);
    }
    DefaultsJoin(s, d, b, c, org, rest, orgs);
  }

  lemma OrgsCompose(s: Source, plan: Plan, d: Db, b: Db, c: Db, orgs: seq<int>)
    requires orgs != [] && OrgEffect(s, plan, d, b, orgs[0]) && OrgsEffect(s, plan, b, c, orgs[1..]) && FreshIds(c)
    ensures OrgsEffect(s, plan, d, c, orgs)
  {
    var org, rest := orgs[0], orgs[1..];
    assert forall o :: o in orgs <==> o == org || o in rest;
    OwnRowsStay(s, plan, d, b, c, org, rest);
    RowsCompose(s, plan, d, b, c, org, rest, orgs);
    GrantsCompose(s, plan, d, b, c, org, rest, orgs);
    ProvidersCompose(s, d, b, c, org, rest, orgs);
    DefaultsCompose(s, plan, d, b, c, org, rest, orgs);
  }

  lemma {:induction false} BackfillOrgsEffect(s: Source, plan: Plan, d: Db, orgs: seq<int>)
    requires FreshIds(d) && Fair(plan.choose) && BackfillOrgs(s, plan, d, orgs).Ok?
    ensures OrgsEffect(s, plan, d, BackfillOrgs(s, plan, d, orgs).value, orgs)
    decreases |orgs|
  {
    if orgs != [] {
      var b := BackfillOrg(s, plan, d, orgs[0]).value;
      OrgGrows(s, plan, d, orgs[0]);
      BackfillOrgEffect(s, plan, d, orgs[0]);
      BackfillOrgsEffect(s, plan, b, orgs[1..]);
      OrgsKeepIds(s, plan, b, orgs[1..]);
      OrgsCompose(s, plan, d, b, BackfillOrgs(s, plan, b, orgs[1..]).value, orgs);
    }
  }

  // ---- the seeding

  ghost predicate EntryKey(entries: seq<Entry>, k: Key) {
    exists i :: 0 <= i < |entries| && k == Key(None, None, entries[i].provider, entries[i].model)
  }

  /** The platform rows of the entries are there; the others are as before, and so is all but the metadata
      of those that were there. */
  ghost predicate SeedAdded(entries: seq<Entry>, d: Db, d': Db) {
    && (forall i :: 0 <= i < |entries| ==> Key(None, None, entries[i].provider, entries[i].model) in d'.catalog)
    && (forall k :: k in d.catalog ==>
          && k in d'.catalog && d'.catalog[k].id == d.catalog[k].id && d'.catalog[k].config == d.catalog[k].config
          && (EntryKey(entries, k) || d'.catalog[k] == d.catalog[k]))
    && (forall k :: k in d'.catalog && k !in d.catalog ==> EntryKey(entries, k) && d'.catalog[k].config == None)
    && d' == d.(catalog := d'.catalog, nextId := d'.nextId)
  }

  lemma EntryKeyCons(entries: seq<Entry>, k: Key)
    requires entries != []
    ensures EntryKey(entries, k) <==> k == Key(None, None, entries[0].provider, entries[0].model) || EntryKey(entries[1..], k)
  {
    if i :| 0 <= i < |entries| && k == Key(None, None, entries[i].provider, entries[i].model) {
      assert i > 0 ==> entries[1..][i - 1] == entries[i];
    }
    if i :| 0 <= i < |entries[1..]| && k == Key(None, None, entries[1..][i].provider, entries[1..][i].model) {
      assert entries[i + 1] == entries[1..][i];
    }
  }

  lemma UpsertEffect(d: Db, e: Entry)
    ensures SeedAdded([e], d, Upsert(d, e))
  {
    assert EntryKey([e], Key(None, None, e.provider, e.model)) by {
      assert [e][0] == e;
    }
  }

  lemma SeedCompose(entries: seq<Entry>, d: Db, b: Db, c: Db)
    requires entries != [] && SeedAdded([entries[0]], d, b) && SeedAdded(entries[1..], b, c)
    ensures SeedAdded(entries, d, c)
  {
    forall k ensures EntryKey(entries, k) <==> EntryKey([entries[0]], k) || EntryKey(entries[1..], k) {
      EntryKeyCons(entries, k);
      EntryKeyCons([entries[0]], k);
    }
    forall i | 0 <= i < |entries| ensures Key(None, None, entries[i].provider, entries[i].model) in c.catalog {
      if i > 0 {
        assert entries[i] == entries[1..][i - 1];
      } else {
        assert entries[0] == [entries[0]][0];
      }
    }
  }

  lemma {:induction false} SeedEffect(d: Db, entries: seq<Entry>)
    ensures SeedAdded(entries, d, Seed(d, entries))
    decreases |entries|
  {
    if entries != [] {
      var b := Upsert(d, entries[0]);
      UpsertEffect(d, entries[0]);
      SeedEffect(b, entries[1..]);
      SeedCompose(entries, d, b, Seed(b, entries[1..]));
    }
  }

  // ---- presets

  /** A preset is linked exactly if it was, or its workspace is known and some visible row has its provider
      and model name; and then to the row these resolve to. Nothing else about it changes. */
  ghost predicate PresetLinked(s: Source, d: Db, p: Preset, p': Preset) {
    && p' == p.(catalogId := p'.catalogId)
    && (p.catalogId.Some? ==> p' == p)
    && (p.catalogId.None? ==>
          && (p'.catalogId.Some? <==> p.workspace in s.workspaces && SomeFits(d, s.workspaces[p.workspace], Some(p.provider), p.model))
          && (p'.catalogId.Some? ==> Resolves(d, s.workspaces[p.workspace], Some(p.provider), p.model, p'.catalogId.value)))
  }

  lemma ByNameFits(d: Db, org: int, p: Preset, k: Key)
    ensures k in ByName(d, org, p) <==> k in d.catalog && Fits(org, Some(p.provider), p.model, k)
  {
  }

  lemma LinkEffect(s: Source, d: Db, choose: set<int> -> int, p: Preset)
    requires FreshIds(d) && Fair(choose)
    ensures PresetLinked(s, d, p, Link(s, d, choose, p))
  {
    if p.workspace in s.workspaces {
      var org := s.workspaces[p.workspace];
      var keys := ByName(d, org, p);
      forall k ensures k in keys <==> k in d.catalog && Fits(org, Some(p.provider), p.model, k) {
        ByNameFits(d, org, p, k);
      }
      if k :| k in keys {
        assert SomeFits(d, org, Some(p.provider), p.model);
      }
      if Linkable(s, d, p) {
        SomeCandidate(d, keys);
        var id := choose(Candidates(d, keys));
        assert id in Candidates(d, keys);
        var k := CandidateRow(d, keys, id);
        assert HasId(d, k, id) && forall l :: HasId(d, l, id) ==> l == k;
        assert Resolves(d, org, Some(p.provider), p.model, id);
      }
    }
  }

  ghost predicate AllLinked(s: Source, d: Db, before: map<int, Preset>, after: map<int, Preset>) {
    after.Keys == before.Keys && forall i :: i in before ==> PresetLinked(s, d, before[i], after[i])
  }

  lemma LinkAllEffect(s: Source, d: Db, choose: set<int> -> int, ps: map<int, Preset>)
    requires FreshIds(d) && Fair(choose)
    ensures AllLinked(s, d, ps, LinkAll(s, d, choose, ps))
  {
    forall i | i in ps ensures PresetLinked(s, d, ps[i], LinkAll(s, d, choose, ps)[i]) {
      LinkEffect(s, d, choose, ps[i]);
    }
  }

  // ---- the run

  /** Everything a successful run does, table by table. `seeded` is the state once the platform rows are in. */
  ghost predicate RunEffect(s: Source, plan: Plan, d: Db, seeded: Db, d': Db) {
    && SeedAdded(s.entries, d, seeded)
    && (forall i :: 0 <= i < |s.entries| ==>
          && Key(None, None, s.entries[i].provider, s.entries[i].model) in d'.catalog
          && d'.catalog[Key(None, None, s.entries[i].provider, s.entries[i].model)].metadata == s.entries[i].metadata)
    && AllRows(s, plan, seeded, d', plan.orgs) && AllGrants(s, plan, seeded, d', plan.orgs)
    && AllProviders(s, seeded, d', plan.orgs) && AllDefaults(s, seeded, d', plan.orgs)
    && AllLinked(s, d', d.presets, d'.presets) && AllLinked(s, d', d.versions, d'.versions)
    && FreshIds(d')
  }

  lemma SameRows(s: Source, plan: Plan, d: Db, d1: Db, d2: Db, orgs: seq<int>)
    requires AllRows(s, plan, d, d1, orgs) && d2.catalog == d1.catalog && d2.providers == d1.providers
    ensures AllRows(s, plan, d, d2, orgs)
  {
    forall o, k ensures OwnRow(s, plan, d1, o, k) <==> OwnRow(s, plan, d2, o, k) {
    }
    forall k | k in d2.catalog && k !in d.catalog ensures exists o :: o in orgs && NewRow(s, plan, d2, o, k) {
      var o :| o in orgs && NewRow(s, plan, d1, o, k);
      assert NewRow(s, plan, d2, o, k);
    }
  }

  lemma SameGrants(s: Source, plan: Plan, d: Db, d1: Db, d2: Db, orgs: seq<int>)
    requires AllGrants(s, plan, d, d1, orgs) && d2.catalog == d1.catalog && d2.providers == d1.providers && d2.grants == d1.grants
    ensures AllGrants(s, plan, d, d2, orgs)
  {
    forall o, k ensures ByDesign(s, plan, d1, o, k) <==> ByDesign(s, plan, d2, o, k) {
    }
    assert forall k, id :: HasId(d1, k, id) <==> HasId(d2, k, id);
    assert forall o, k :: Granted(d1, o, k) <==> Granted(d2, o, k);
  }

  lemma SameOwners(s: Source, d: Db, d1: Db, d2: Db, orgs: seq<int>)
    requires AllProviders(s, d, d1, orgs) && d2.providers == d1.providers
    ensures AllProviders(s, d, d2, orgs)
  {
    assert forall o, p :: Owns(d1, o, p) <==> Owns(d2, o, p);
    assert forall o :: OneOwned(d1, o) <==> OneOwned(d2, o);
  }

  lemma SameDefaults(s: Source, d: Db, d1: Db, d2: Db, orgs: seq<int>)
    requires AllDefaults(s, d, d1, orgs) && d2.catalog == d1.catalog && d2.defaults == d1.defaults
    ensures AllDefaults(s, d, d2, orgs)
  {
    assert forall k, id :: HasId(d1, k, id) <==> HasId(d2, k, id);
    assert forall o, m :: SomeFits(d1, o, None, m) <==> SomeFits(d2, o, None, m);
    assert forall o, m, id :: Resolves(d1, o, None, m, id) <==> Resolves(d2, o, None, m, id);
  }

  lemma SameCatalog(s: Source, plan: Plan, d: Db, d1: Db, d2: Db, orgs: seq<int>)
    requires OrgsEffect(s, plan, d, d1, orgs) && d2 == d1.(presets := d2.presets, versions := d2.versions)
    ensures AllRows(s, plan, d, d2, orgs) && AllGrants(s, plan, d, d2, orgs)
    ensures AllProviders(s, d, d2, orgs) && AllDefaults(s, d, d2, orgs)
  {
    SameRows(s, plan, d, d1, d2, orgs);
    SameGrants(s, plan, d, d1, d2, orgs);
    SameOwners(s, d, d1, d2, orgs);
    SameDefaults(s, d, d1, d2, orgs);
  }

  lemma SameCatalogLinked(s: Source, d1: Db, d2: Db, before: map<int, Preset>, after: map<int, Preset>)
    requires AllLinked(s, d1, before, after) && d2.catalog == d1.catalog
    ensures AllLinked(s, d2, before, after)
  {
    assert forall k, id :: HasId(d1, k, id) <==> HasId(d2, k, id);
    forall i | i in before ensures PresetLinked(s, d2, before[i], after[i]) {
      var p, p' := before[i], after[i];
      assert PresetLinked(s, d1, p, p');
      if p.workspace in s.workspaces {
        var org := s.workspaces[p.workspace];
        assert SomeFits(d1, org, Some(p.provider), p.model) <==> SomeFits(d2, org, Some(p.provider), p.model);
        assert p'.catalogId.Some? ==>
          (Resolves(d1, org, Some(p.provider), p.model, p'.catalogId.value) <==> Resolves(d2, org, Some(p.provider), p.model, p'.catalogId.value));
      }
    }
  }

  lemma RunInFull(s: Source, plan: Plan, d: Db, d': Db) returns (seeded: Db)
    requires FreshIds(d) && Fair(plan.choose) && Run(s, plan, d) == Ok(d')
    ensures RunEffect(s, plan, d, seeded, d')
  {
    seeded := Seed(d, s.entries);
    SeedEffect(d, s.entries);
    SeedSeeds(d, s.entries);
    SeedKeepsIds(d, s.entries);
    var d1 := BackfillOrgs(s, plan, seeded, plan.orgs).value;
    BackfillOrgsEffect(s, plan, seeded, plan.orgs);
    OrgsKeepIds(s, plan, seeded, plan.orgs);
    SameCatalog(s, plan, seeded, d1, d', plan.orgs);
    LinkAllEffect(s, d1, plan.choose, d1.presets);
    LinkAllEffect(s, d1, plan.choose, d1.versions);
    SameCatalogLinked(s, d1, d', d.presets, d'.presets);
    SameCatalogLinked(s, d1, d', d.versions, d'.versions);
    forall i | 0 <= i < |s.entries|
      ensures Key(None, None, s.entries[i].provider, s.entries[i].model) in d'.catalog
      ensures d'.catalog[Key(None, None, s.entries[i].provider, s.entries[i].model)].metadata == s.entries[i].metadata
    {
      assert PlatformKey(s.entries[i]) in seeded.catalog && seeded.catalog[PlatformKey(s.entries[i])].metadata == s.entries[i].metadata;
    }
  }

  /** A run succeeds exactly if the entries are distinct, no secret it asks for is stored twice, and no
      organization with a custom credential has several providers. */
  lemma {:induction false} OrgsSucceed(s: Source, plan: Plan, d: Db, orgs: seq<int>)
    requires FreshIds(d) && Fair(plan.choose)
    ensures BackfillOrgs(s, plan, d, orgs).Ok? <==> forall o :: o in orgs ==> !SeveralOwned(s, d, o)
    decreases |orgs|
  {
    if orgs != [] {
      var o := orgs[0];
      CustomSucceeds(s, d, o);
      assert forall x :: x in orgs <==> x == o || x in orgs[1..];
      if BackfillOrg(s, plan, d, o).Ok? {
        var b := BackfillOrg(s, plan, d, o).value;
        OrgGrows(s, plan, d, o);
        BackfillOrgEffect(s, plan, d, o);
        OrgsSucceed(s, plan, b, orgs[1..]);
        forall x ensures SeveralOwned(s, b, x) <==> SeveralOwned(s, d, x) {
          SeveralStays(s, d, b, o, x);
        }
      }
    }
  }

  ghost predicate SeveralOwned(s: Source, d: Db, org: int) {
    Holds(s, org, "custom-model-provider") && exists p, q :: Owns(d, org, p) && Owns(d, org, q) && p != q
  }

  lemma CustomSucceeds(s: Source, d: Db, org: int)
    ensures MigrateCustom(s, d, org).Ok? <==> !SeveralOwned(s, d, org)
  {
    assert Holds(s, org, "custom-model-provider") <==> CredentialOf(org, CUSTOM_SLUG) in s.secrets;
    assert forall p :: p in ProvidersOf(d, org) <==> Owns(d, org, p);
  }

  lemma SeveralStays(s: Source, d: Db, b: Db, org: int, x: int)
    requires ProvidersAdded(s, d, b, org) && !SeveralOwned(s, d, org)
    ensures SeveralOwned(s, b, x) <==> SeveralOwned(s, d, x)
  {
    assert forall p :: Owns(d, x, p) ==> Owns(b, x, p);
    if x != org {
      assert forall p :: Owns(b, x, p) ==> Owns(d, x, p);
    }
  }

  lemma RunSucceeds(s: Source, plan: Plan, d: Db)
    requires FreshIds(d) && Fair(plan.choose)
    ensures Run(s, plan, d).Ok? <==>
              && (forall i, j :: 0 <= i < j < |s.entries| ==> s.entries[i].provider != s.entries[j].provider || s.entries[i].model != s.entries[j].model)
              && (forall o, p :: o in plan.orgs && (p == "custom-model-provider" || p in plan.cloud || p in plan.direct) ==>
                    Secret(o, "agent-" + p + "-credentials") !in s.several)
              && (forall o :: o in plan.orgs ==> !SeveralOwned(s, d, o))
  {
    var seeded := Seed(d, s.entries);
    SeedEffect(d, s.entries);
    SeedKeepsIds(d, s.entries);
    OrgsSucceed(s, plan, seeded, plan.orgs);
    assert forall o, p :: Owns(seeded, o, p) <==> Owns(d, o, p);
    assert forall o :: SeveralOwned(s, seeded, o) <==> SeveralOwned(s, d, o);
    assert forall o, p :: CredentialOf(o, p) == Secret(o, "agent-" + p + "-credentials");
  }

  lemma {:induction false} OnlySeveralProviders(s: Source, plan: Plan, d: Db, orgs: seq<int>)
    ensures BackfillOrgs(s, plan, d, orgs).Err? ==> BackfillOrgs(s, plan, d, orgs) == Err(SeveralProviders)
    decreases |orgs|
  {
    if orgs != [] && BackfillOrg(s, plan, d, orgs[0]).Ok? {
      OnlySeveralProviders(s, plan, BackfillOrg(s, plan, d, orgs[0]).value, orgs[1..]);
    }
  }

  /** Why a run fails: entries twice, else secrets twice, else several providers. */
  lemma RunFails(s: Source, plan: Plan, d: Db)
    ensures Run(s, plan, d) == Err(DuplicateEntry) <==>
              exists i, j :: 0 <= i < j < |s.entries| && s.entries[i].provider == s.entries[j].provider && s.entries[i].model == s.entries[j].model
    ensures Run(s, plan, d) == Err(SeveralSecrets) ==>
              exists o, p :: && o in plan.orgs && (p == "custom-model-provider" || p in plan.cloud || p in plan.direct)
                             && Secret(o, "agent-" + p + "-credentials") in s.several
    ensures Run(s, plan, d) == Err(SeveralProviders) ==>
              forall o, p :: o in plan.orgs && (p == "custom-model-provider" || p in plan.cloud || p in plan.direct) ==>
                Secret(o, "agent-" + p + "-credentials") !in s.several
  {
    assert forall o, p :: CredentialOf(o, p) == Secret(o, "agent-" + p + "-credentials");
    OnlySeveralProviders(s, plan, Seed(d, s.entries), plan.orgs);
  }
}
