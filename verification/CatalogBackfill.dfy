/**
 The one-shot backfill of the model catalog: platform rows, per-organization rows and grants, and
 links from presets and settings to catalog rows. Existing data that it only reads is in `Source`;
 the choices a run is free to make - orders of iteration, ties between matching rows - are in `Plan`.
 */
module CatalogBackfill {
  import opened Common

  const CUSTOM_SLUG := "custom-model-provider"
  const CUSTOM_MODEL := "custom"

  /** The unique index of agent_catalog, in which nulls count as equal. */
  datatype Key = Key(org: Option<int>, custom: Option<int>, provider: string, model: string)

  datatype Row = Row(id: int, metadata: int, config: Option<int>)

  datatype Provider = Provider(org: int, config: int)

  datatype Grant = Grant(org: int, workspace: Option<int>, catalogId: int)

  datatype Preset = Preset(workspace: int, provider: string, model: string, catalogId: Option<int>)

  datatype Entry = Entry(provider: string, model: string, metadata: int)

  datatype Secret = Secret(org: int, name: string)

  /** A legacy default-model setting; `model` is what its JSON value decodes to, if to a string. */
  datatype Legacy = Legacy(encrypted: bool, model: Option<string>)

  datatype Db = Db(
    catalog: map<Key, Row>,
    providers: map<int, Provider>,
    grants: set<Grant>,
    presets: map<int, Preset>,
    versions: map<int, Preset>,
    defaults: map<int, int>,
    nextId: int)

  /** `several` are the secrets stored more than once, in different environments. */
  datatype Source = Source(entries: seq<Entry>, secrets: map<Secret, int>, several: set<Secret>, workspaces: map<int, int>, legacy: map<int, Legacy>)

  datatype Plan = Plan(orgs: seq<int>, cloud: seq<string>, direct: seq<string>, choose: set<int> -> int)

  datatype BackfillError = DuplicateEntry | SeveralProviders | SeveralSecrets

  function CredentialOf(org: int, provider: string): Secret { Secret(org, "agent-" + provider + "-credentials") }

  // ---- single statements

  /** INSERT ... ON CONFLICT DO NOTHING. */
  function EnsureRow(d: Db, k: Key, metadata: int, config: Option<int>): Db {
    if k in d.catalog then d
    else d.(catalog := d.catalog[k := Row(d.nextId, metadata, config)], nextId := d.nextId + 1)
  }

  /** An organization-wide grant, likewise idempotent. */
  function EnsureGrant(d: Db, org: int, k: Key): Db
    requires k in d.catalog
  {
    d.(grants := d.grants + {Grant(org, None, d.catalog[k].id)})
  }

  function PlatformKey(e: Entry): Key { Key(None, None, e.provider, e.model) }

  /** INSERT ... ON CONFLICT DO UPDATE SET model_metadata. */
  function Upsert(d: Db, e: Entry): Db {
    var k := PlatformKey(e);
    if k in d.catalog then d.(catalog := d.catalog[k := d.catalog[k].(metadata := e.metadata)])
    else EnsureRow(d, k, e.metadata, None)
  }

  function Seed(d: Db, entries: seq<Entry>): Db
    decreases |entries|
  {
    if entries == [] then d else Seed(Upsert(d, entries[0]), entries[1..])
  }

  method SeedPlatformCatalog(d: Db, entries: seq<Entry>) returns (d': Db)
    ensures d' == Seed(d, entries)
  {
    d' := d;
    var i := 0;
    assert entries[0..] == entries;
    while i < |entries|
      invariant 0 <= i <= |entries|
      invariant Seed(d, entries) == Seed(d', entries[i..])
    {
      assert entries[i..][0] == entries[i] && entries[i..][1..] == entries[i + 1..];
      d' := Upsert(d', entries[i]);
      i := i + 1;
    }
  }

  ghost predicate DistinctEntries(entries: seq<Entry>) {
    forall i, j :: 0 <= i < j < |entries| ==> PlatformKey(entries[i]) != PlatformKey(entries[j])
  }

  // ---- one organization

  ghost function ProvidersOf(d: Db, org: int): set<int> {
    set p | p in d.providers && d.providers[p].org == org
  }

  function CustomKey(org: int, p: int): Key { Key(Some(org), Some(p), CUSTOM_SLUG, CUSTOM_MODEL) }

  ghost function CustomRow(d: Db, org: int, p: int, blob: int): Db {
    EnsureGrant(EnsureRow(d, CustomKey(org, p), 0, Some(blob)), org, CustomKey(org, p))
  }

  ghost function MigrateCustom(s: Source, d: Db, org: int): Result<Db, BackfillError> {
    var secret := CredentialOf(org, CUSTOM_SLUG);
    if secret !in s.secrets then Ok(d)
    else
      var blob := s.secrets[secret];
      var existing := ProvidersOf(d, org);
      if exists p, q :: p in existing && q in existing && p != q then Err(SeveralProviders)
      else if p :| p in existing then Ok(CustomRow(d, org, p, blob))
      else Ok(CustomRow(WithProvider(d, org, blob), org, d.nextId, blob))
  }

  function CloudKey(org: int, provider: string): Key { Key(Some(org), None, provider, provider) }

  function MigrateCloud(s: Source, d: Db, org: int, provider: string): Db {
    var secret := CredentialOf(org, provider);
    if secret !in s.secrets then d
    else EnsureGrant(EnsureRow(d, CloudKey(org, provider), 0, Some(s.secrets[secret])), org, CloudKey(org, provider))
  }

  function MigrateClouds(s: Source, d: Db, org: int, providers: seq<string>): Db
    decreases |providers|
  {
    if providers == [] then d else MigrateClouds(s, MigrateCloud(s, d, org, providers[0]), org, providers[1..])
  }

  method MigrateCloudProviders(s: Source, d: Db, org: int, providers: seq<string>) returns (d': Db)
    ensures d' == MigrateClouds(s, d, org, providers)
  {
    d' := d;
    var i := 0;
    assert providers[0..] == providers;
    while i < |providers|
      invariant 0 <= i <= |providers|
      invariant MigrateClouds(s, d, org, providers) == MigrateClouds(s, d', org, providers[i..])
    {
      assert providers[i..][0] == providers[i] && providers[i..][1..] == providers[i + 1..];
      d' := MigrateCloud(s, d', org, providers[i]);
      i := i + 1;
    }
  }

  ghost function PlatformIds(d: Db, provider: string): set<int> {
    set k | k in d.catalog && k.org.None? && k.custom.None? && k.provider == provider :: d.catalog[k].id
  }

  ghost function GrantDirect(s: Source, d: Db, org: int, provider: string): Db {
    if CredentialOf(org, provider) !in s.secrets then d
    else d.(grants := d.grants + set id | id in PlatformIds(d, provider) :: Grant(org, None, id))
  }

  ghost function GrantDirects(s: Source, d: Db, org: int, providers: seq<string>): Db
    decreases |providers|
  {
    if providers == [] then d else GrantDirects(s, GrantDirect(s, d, org, providers[0]), org, providers[1..])
  }

  predicate Visible(k: Key, org: int) { k.org.None? || k.org == Some(org) }

  /** The ids a lookup may end in: platform rows if any match, else the organization's own. */
  ghost function Candidates(d: Db, keys: set<Key>): set<int>
    requires keys <= d.catalog.Keys
  {
    var platform := set k | k in keys && k.org.None?;
    set k | k in (if platform != {} then platform else keys) :: d.catalog[k].id
  }

  ghost function ByModel(d: Db, org: int, model: string): set<Key> {
    set k | k in d.catalog && k.model == model && Visible(k, org)
  }

  ghost predicate WantsDefault(s: Source, d: Db, org: int) {
    && org !in d.defaults && org in s.legacy && !s.legacy[org].encrypted
    && s.legacy[org].model.Some? && s.legacy[org].model.value != ""
    && ByModel(d, org, s.legacy[org].model.value) != {}
  }

  ghost function SetDefault(s: Source, d: Db, org: int, choose: set<int> -> int): Db {
    if !WantsDefault(s, d, org) then d
    else d.(defaults := d.defaults[org := choose(Candidates(d, ByModel(d, org, s.legacy[org].model.value)))])
  }

  ghost function BackfillOrg(s: Source, plan: Plan, d: Db, org: int): Result<Db, BackfillError> {
    match MigrateCustom(s, d, org)
    case Err(e) => Err(e)
    case Ok(d1) => Ok(SetDefault(s, GrantDirects(s, MigrateClouds(s, d1, org, plan.cloud), org, plan.direct), org, plan.choose))
  }

  ghost function BackfillOrgs(s: Source, plan: Plan, d: Db, orgs: seq<int>): Result<Db, BackfillError>
    decreases |orgs|
  {
    if orgs == [] then Ok(d)
    else match BackfillOrg(s, plan, d, orgs[0])
      case Err(e) => Err(e)
      case Ok(d') => BackfillOrgs(s, plan, d', orgs[1..])
  }

  // ---- presets

  ghost function ByName(d: Db, org: int, p: Preset): set<Key> {
    set k | k in d.catalog && k.provider == p.provider && k.model == p.model && Visible(k, org)
  }

  ghost predicate Linkable(s: Source, d: Db, p: Preset) {
    p.catalogId.None? && p.workspace in s.workspaces && ByName(d, s.workspaces[p.workspace], p) != {}
  }

  ghost function Link(s: Source, d: Db, choose: set<int> -> int, p: Preset): Preset {
    if !Linkable(s, d, p) then p
    else p.(catalogId := Some(choose(Candidates(d, ByName(d, s.workspaces[p.workspace], p)))))
  }

  ghost function LinkAll(s: Source, d: Db, choose: set<int> -> int, ps: map<int, Preset>): map<int, Preset> {
    map i | i in ps :: Link(s, d, choose, ps[i])
  }

  /** A lookup of one of the secrets a run asks for finds more than one row. */
  ghost predicate Ambiguous(s: Source, plan: Plan) {
    exists o, p :: o in plan.orgs && (p == CUSTOM_SLUG || p in plan.cloud || p in plan.direct) && CredentialOf(o, p) in s.several
  }

  /** The run is one transaction: any error undoes all of it. */
  ghost function Run(s: Source, plan: Plan, d: Db): Result<Db, BackfillError> {
    if !DistinctEntries(s.entries) then Err(DuplicateEntry)
    else if Ambiguous(s, plan) then Err(SeveralSecrets)
    else match BackfillOrgs(s, plan, Seed(d, s.entries), plan.orgs)
      case Err(e) => Err(e)
      case Ok(d') => Ok(d'.(presets := LinkAll(s, d', plan.choose, d'.presets), versions := LinkAll(s, d', plan.choose, d'.versions)))
  }

  // ---- growth: what a step for one organization can change

  /** Rows, providers, grants and defaults only gain members, and new ones belong to `org`. */
  ghost predicate Grows(d: Db, d': Db, org: int) {
    && (forall k :: k in d.catalog ==> k in d'.catalog && d'.catalog[k] == d.catalog[k])
    && (forall k :: k in d'.catalog && k !in d.catalog ==> k.org == Some(org))
    && (forall p :: p in d.providers ==> p in d'.providers && d'.providers[p] == d.providers[p])
    && (forall p :: p in d'.providers && p !in d.providers ==> d'.providers[p].org == org)
    && d.grants <= d'.grants
    && (forall o :: o != org ==> (o in d'.defaults <==> o in d.defaults))
    && (forall o :: o in d.defaults ==> o in d'.defaults && d'.defaults[o] == d.defaults[o])
    && d'.presets == d.presets && d'.versions == d.versions
  }

  /** Ids in use lie below the next one, and each catalog row has its own. */
  ghost predicate FreshIds(d: Db) {
    && (forall p :: p in d.providers ==> p < d.nextId)
    && (forall k :: k in d.catalog ==> d.catalog[k].id < d.nextId)
    && (forall k, l :: k in d.catalog && l in d.catalog && d.catalog[k].id == d.catalog[l].id ==> k == l)
  }

  lemma GrowsTransitive(a: Db, b: Db, c: Db, org: int)
    requires Grows(a, b, org) && Grows(b, c, org)
    ensures Grows(a, c, org)
  {
  }

  lemma RowKeepsIds(d: Db, k: Key, metadata: int, config: Option<int>)
    requires FreshIds(d)
    ensures FreshIds(EnsureRow(d, k, metadata, config))
  {
  }

  lemma UpsertKeepsIds(d: Db, e: Entry)
    requires FreshIds(d)
    ensures FreshIds(Upsert(d, e))
  {
    RowKeepsIds(d, PlatformKey(e), e.metadata, None);
  }

  lemma {:induction false} SeedKeepsIds(d: Db, entries: seq<Entry>)
    requires FreshIds(d)
    ensures FreshIds(Seed(d, entries))
    decreases |entries|
  {
    if entries != [] {
      UpsertKeepsIds(d, entries[0]);
      SeedKeepsIds(Upsert(d, entries[0]), entries[1..]);
    }
  }

  lemma RowGrows(d: Db, k: Key, config: Option<int>, org: int)
    requires k.org == Some(org)
    ensures var d' := EnsureRow(d, k, 0, config);
            Grows(d, EnsureGrant(d', org, k), org)
  {
  }

  lemma CustomRowGrows(d: Db, org: int, p: int, blob: int)
    requires FreshIds(d)
    ensures Grows(d, CustomRow(d, org, p, blob), org) && FreshIds(CustomRow(d, org, p, blob))
  {
    RowKeepsIds(d, CustomKey(org, p), 0, Some(blob));
    RowGrows(d, CustomKey(org, p), Some(blob), org);
  }

  function WithProvider(d: Db, org: int, blob: int): Db {
    d.(providers := d.providers[d.nextId := Provider(org, blob)], nextId := d.nextId + 1)
  }

  /** The two ways a custom provider is migrated: the organization's only one, or a new one. */
  lemma CustomCases(s: Source, d: Db, org: int) returns (p: int, isNew: bool)
    requires CredentialOf(org, CUSTOM_SLUG) in s.secrets && MigrateCustom(s, d, org).Ok?
    ensures var blob := s.secrets[CredentialOf(org, CUSTOM_SLUG)];
            if isNew then
              && (forall q :: q in d.providers ==> d.providers[q].org != org) && p == d.nextId
              && MigrateCustom(s, d, org) == Ok(CustomRow(WithProvider(d, org, blob), org, p, blob))
            else
              ProvidersOf(d, org) == {p} && MigrateCustom(s, d, org) == Ok(CustomRow(d, org, p, blob))
  {
    var existing := ProvidersOf(d, org);
    if q :| q in existing {
      p, isNew := q, false;
      assert forall r :: r in existing ==> r == q;
      assert existing == {q};
    } else {
      p, isNew := d.nextId, true;
      forall q | q in d.providers ensures d.providers[q].org != org {
        assert q !in existing;
      }
    }
  }

  lemma ProviderGrows(d: Db, org: int, blob: int)
    requires FreshIds(d)
    ensures Grows(d, WithProvider(d, org, blob), org) && FreshIds(WithProvider(d, org, blob))
  {
  }

  lemma CustomGrows(s: Source, d: Db, org: int)
    requires FreshIds(d) && MigrateCustom(s, d, org).Ok?
    ensures Grows(d, MigrateCustom(s, d, org).value, org) && FreshIds(MigrateCustom(s, d, org).value)
  {
    if CredentialOf(org, CUSTOM_SLUG) in s.secrets {
      var blob := s.secrets[CredentialOf(org, CUSTOM_SLUG)];
      var p, isNew := CustomCases(s, d, org);
      var d1 := if isNew then WithProvider(d, org, blob) else d;
      ProviderGrows(d, org, blob);
      CustomRowGrows(d1, org, p, blob);
      GrowsTransitive(d, d1, CustomRow(d1, org, p, blob), org);
    }
  }

  lemma CloudGrows(s: Source, d: Db, org: int, provider: string)
    requires FreshIds(d)
    ensures Grows(d, MigrateCloud(s, d, org, provider), org) && FreshIds(MigrateCloud(s, d, org, provider))
  {
    if CredentialOf(org, provider) in s.secrets {
      var config := Some(s.secrets[CredentialOf(org, provider)]);
      RowKeepsIds(d, CloudKey(org, provider), 0, config);
      RowGrows(d, CloudKey(org, provider), config, org);
    }
  }

  lemma DirectGrows(s: Source, d: Db, org: int, provider: string)
    ensures Grows(d, GrantDirect(s, d, org, provider), org) && GrantDirect(s, d, org, provider).catalog == d.catalog
    ensures FreshIds(d) ==> FreshIds(GrantDirect(s, d, org, provider))
  {
  }

  lemma {:induction false} CloudsGrow(s: Source, d: Db, org: int, providers: seq<string>)
    requires FreshIds(d)
    ensures Grows(d, MigrateClouds(s, d, org, providers), org) && FreshIds(MigrateClouds(s, d, org, providers))
    decreases |providers|
  {
    if providers != [] {
      var d' := MigrateCloud(s, d, org, providers[0]);
      CloudGrows(s, d, org, providers[0]);
      CloudsGrow(s, d', org, providers[1..]);
      GrowsTransitive(d, d', MigrateClouds(s, d', org, providers[1..]), org);
    }
  }

  lemma {:induction false} DirectsGrow(s: Source, d: Db, org: int, providers: seq<string>)
    requires FreshIds(d)
    ensures Grows(d, GrantDirects(s, d, org, providers), org) && FreshIds(GrantDirects(s, d, org, providers))
    ensures GrantDirects(s, d, org, providers).catalog == d.catalog
    decreases |providers|
  {
    if providers != [] {
      var d' := GrantDirect(s, d, org, providers[0]);
      DirectGrows(s, d, org, providers[0]);
      DirectsGrow(s, d', org, providers[1..]);
      GrowsTransitive(d, d', GrantDirects(s, d', org, providers[1..]), org);
    }
  }

  lemma OrgGrows(s: Source, plan: Plan, d: Db, org: int)
    requires FreshIds(d) && BackfillOrg(s, plan, d, org).Ok?
    ensures Grows(d, BackfillOrg(s, plan, d, org).value, org) && FreshIds(BackfillOrg(s, plan, d, org).value)
  {
    CustomGrows(s, d, org);
    var d1 := MigrateCustom(s, d, org).value;
    CloudsGrow(s, d1, org, plan.cloud);
    var d2 := MigrateClouds(s, d1, org, plan.cloud);
    DirectsGrow(s, d2, org, plan.direct);
    var d3 := GrantDirects(s, d2, org, plan.direct);
    GrowsTransitive(d, d1, d2, org);
    GrowsTransitive(d, d2, d3, org);
    GrowsTransitive(d, d3, SetDefault(s, d3, org, plan.choose), org);
  }

  // ---- settled: nothing is left to do for an organization

  ghost predicate CustomSettled(s: Source, d: Db, org: int) {
    CredentialOf(org, CUSTOM_SLUG) in s.secrets ==>
      exists p :: ProvidersOf(d, org) == {p} && RowGranted(d, org, CustomKey(org, p))
  }

  ghost predicate RowGranted(d: Db, org: int, k: Key) {
    k in d.catalog && Grant(org, None, d.catalog[k].id) in d.grants
  }

  ghost predicate CloudSettled(s: Source, d: Db, org: int, provider: string) {
    CredentialOf(org, provider) in s.secrets ==> RowGranted(d, org, CloudKey(org, provider))
  }

  ghost predicate DirectSettled(s: Source, d: Db, org: int, provider: string) {
    CredentialOf(org, provider) in s.secrets ==> forall id :: id in PlatformIds(d, provider) ==> Grant(org, None, id) in d.grants
  }

  ghost predicate CloudsSettled(s: Source, d: Db, org: int, providers: seq<string>) {
    forall p :: p in providers ==> CloudSettled(s, d, org, p)
  }

  ghost predicate DirectsSettled(s: Source, d: Db, org: int, providers: seq<string>) {
    forall p :: p in providers ==> DirectSettled(s, d, org, p)
  }

  ghost predicate OrgSettled(s: Source, plan: Plan, d: Db, org: int) {
    && CustomSettled(s, d, org) && CloudsSettled(s, d, org, plan.cloud) && DirectsSettled(s, d, org, plan.direct)
    && !WantsDefault(s, d, org)
  }

  /** A step that only adds rows and grants and leaves the providers alone. */
  ghost predicate Adds(d: Db, d': Db) {
    && (forall k :: k in d.catalog ==> k in d'.catalog && d'.catalog[k] == d.catalog[k])
    && d.grants <= d'.grants && d'.providers == d.providers
  }

  lemma AddsKeeps(s: Source, d: Db, d': Db, org: int)
    requires Adds(d, d')
    ensures CustomSettled(s, d, org) ==> CustomSettled(s, d', org)
    ensures forall p :: CloudSettled(s, d, org, p) ==> CloudSettled(s, d', org, p)
  {
    assert ProvidersOf(d, org) == ProvidersOf(d', org);
    assert forall k :: RowGranted(d, org, k) ==> RowGranted(d', org, k);
  }

  lemma CustomSettles(s: Source, d: Db, org: int)
    requires MigrateCustom(s, d, org).Ok?
    ensures CustomSettled(s, MigrateCustom(s, d, org).value, org)
  {
    if CredentialOf(org, CUSTOM_SLUG) in s.secrets {
      var p, isNew := CustomCases(s, d, org);
      var d' := MigrateCustom(s, d, org).value;
      assert ProvidersOf(d', org) == {p} by {
        if isNew {
          assert forall q :: q in d'.providers && d'.providers[q].org == org ==> q == p;
        } else {
          assert d'.providers == d.providers && ProvidersOf(d, org) == {p};
        }
      }
      assert RowGranted(d', org, CustomKey(org, p));
    }
  }

  lemma {:induction false} CloudsSettle(s: Source, d: Db, org: int, providers: seq<string>)
    ensures CloudsSettled(s, MigrateClouds(s, d, org, providers), org, providers)
    ensures Adds(d, MigrateClouds(s, d, org, providers))
    decreases |providers|
  {
    if providers != [] {
      var d' := MigrateCloud(s, d, org, providers[0]);
      var rest := providers[1..];
      CloudsSettle(s, d', org, rest);
      assert CloudSettled(s, d', org, providers[0]);
      AddsKeeps(s, d', MigrateClouds(s, d', org, rest), org);
      assert forall p :: p in providers ==> p == providers[0] || p in rest;
    }
  }

  lemma {:induction false} DirectsSettle(s: Source, d: Db, org: int, providers: seq<string>)
    ensures DirectsSettled(s, GrantDirects(s, d, org, providers), org, providers)
    ensures GrantDirects(s, d, org, providers).catalog == d.catalog && Adds(d, GrantDirects(s, d, org, providers))
    decreases |providers|
  {
    if providers != [] {
      var d' := GrantDirect(s, d, org, providers[0]);
      var rest := providers[1..];
      DirectsSettle(s, d', org, rest);
      var d'' := GrantDirects(s, d', org, rest);
      assert PlatformIds(d'', providers[0]) == PlatformIds(d, providers[0]);
      assert DirectSettled(s, d'', org, providers[0]);
      assert forall p :: p in providers ==> p == providers[0] || p in rest;
    }
  }

  /** The steps for an organization leave it settled. */
  lemma OrgSettles(s: Source, plan: Plan, d: Db, org: int)
    requires FreshIds(d) && BackfillOrg(s, plan, d, org).Ok?
    ensures OrgSettled(s, plan, BackfillOrg(s, plan, d, org).value, org)
  {
    CustomSettles(s, d, org);
    var d1 := MigrateCustom(s, d, org).value;
    CloudsSettle(s, d1, org, plan.cloud);
    var d2 := MigrateClouds(s, d1, org, plan.cloud);
    DirectsSettle(s, d2, org, plan.direct);
    var d3 := GrantDirects(s, d2, org, plan.direct);
    var d4 := SetDefault(s, d3, org, plan.choose);
    AddsKeeps(s, d1, d2, org);
    AddsKeeps(s, d2, d3, org);
    AddsKeeps(s, d3, d4, org);
    forall p | p in plan.direct ensures DirectSettled(s, d4, org, p) {
      assert DirectSettled(s, d3, org, p) && PlatformIds(d4, p) == PlatformIds(d3, p);
    }
  }

  /** ... and steps for other organizations keep it settled. */
  lemma OthersKeepSettled(s: Source, plan: Plan, d: Db, d': Db, org: int, other: int)
    requires OrgSettled(s, plan, d, org) && Grows(d, d', other) && other != org
    ensures OrgSettled(s, plan, d', org)
  {
    forall p ensures p in ProvidersOf(d', org) <==> p in ProvidersOf(d, org) {
      assert p in d'.providers && p !in d.providers ==> d'.providers[p].org == other;
    }
    assert ProvidersOf(d', org) == ProvidersOf(d, org);
    assert forall k :: RowGranted(d, org, k) ==> RowGranted(d', org, k);
    forall p | p in plan.direct ensures DirectSettled(s, d', org, p) {
      assert DirectSettled(s, d, org, p);
      SamePlatform(d, d', other, p);
    }
    forall m ensures ByModel(d', org, m) == ByModel(d, org, m) {
      SameVisible(d, d', org, other, m);
    }
  }

  lemma SameVisible(d: Db, d': Db, org: int, other: int, model: string)
    requires Grows(d, d', other) && other != org
    ensures ByModel(d', org, model) == ByModel(d, org, model)
  {
  }

  lemma SamePlatform(d: Db, d': Db, other: int, provider: string)
    requires Grows(d, d', other)
    ensures PlatformIds(d', provider) == PlatformIds(d, provider)
  {
    forall id | id in PlatformIds(d', provider) ensures id in PlatformIds(d, provider) {
      var k :| k in d'.catalog && k.org.None? && k.custom.None? && k.provider == provider && d'.catalog[k].id == id;
      assert k in d.catalog && d.catalog[k].id == id;
    }
    forall id | id in PlatformIds(d, provider) ensures id in PlatformIds(d', provider) {
      var k :| k in d.catalog && k.org.None? && k.custom.None? && k.provider == provider && d.catalog[k].id == id;
      assert k in d'.catalog && d'.catalog[k].id == id;
    }
  }

  // ---- a second run

  ghost predicate Within(again: Plan, plan: Plan) {
    && (forall o :: o in again.orgs ==> o in plan.orgs)
    && (forall p :: p in again.cloud ==> p in plan.cloud)
    && (forall p :: p in again.direct ==> p in plan.direct)
  }

  lemma SettledCustomUnchanged(s: Source, d: Db, org: int)
    requires CustomSettled(s, d, org)
    ensures MigrateCustom(s, d, org) == Ok(d)
  {
    if CredentialOf(org, CUSTOM_SLUG) in s.secrets {
      var p :| ProvidersOf(d, org) == {p} && RowGranted(d, org, CustomKey(org, p));
      assert p in ProvidersOf(d, org);
      var q, isNew := CustomCases(s, d, org);
      assert q == p;
      assert d.grants + {Grant(org, None, d.catalog[CustomKey(org, p)].id)} == d.grants;
    }
  }

  lemma {:induction false} SettledCloudsUnchanged(s: Source, d: Db, org: int, providers: seq<string>)
    requires CloudsSettled(s, d, org, providers)
    ensures MigrateClouds(s, d, org, providers) == d
    decreases |providers|
  {
    if providers != [] {
      assert CloudSettled(s, d, org, providers[0]);
      if CredentialOf(org, providers[0]) in s.secrets {
        assert d.grants + {Grant(org, None, d.catalog[CloudKey(org, providers[0])].id)} == d.grants;
      }
      assert MigrateCloud(s, d, org, providers[0]) == d;
      SettledCloudsUnchanged(s, d, org, providers[1..]);
    }
  }

  lemma {:induction false} SettledDirectsUnchanged(s: Source, d: Db, org: int, providers: seq<string>)
    requires DirectsSettled(s, d, org, providers)
    ensures GrantDirects(s, d, org, providers) == d
    decreases |providers|
  {
    if providers != [] {
      assert DirectSettled(s, d, org, providers[0]);
      assert GrantDirect(s, d, org, providers[0]).grants == d.grants;
      SettledDirectsUnchanged(s, d, org, providers[1..]);
    }
  }

  lemma SettledOrgUnchanged(s: Source, plan: Plan, again: Plan, d: Db, org: int)
    requires OrgSettled(s, plan, d, org) && Within(again, plan)
    ensures BackfillOrg(s, again, d, org) == Ok(d)
  {
    SettledCustomUnchanged(s, d, org);
    SettledCloudsUnchanged(s, d, org, again.cloud);
    SettledDirectsUnchanged(s, d, org, again.direct);
  }

  lemma {:induction false} StaysSettled(s: Source, plan: Plan, d: Db, orgs: seq<int>, org: int)
    requires FreshIds(d) && OrgSettled(s, plan, d, org) && BackfillOrgs(s, plan, d, orgs).Ok?
    ensures OrgSettled(s, plan, BackfillOrgs(s, plan, d, orgs).value, org)
    decreases |orgs|
  {
    if orgs != [] {
      var d' := BackfillOrg(s, plan, d, orgs[0]).value;
      OrgGrows(s, plan, d, orgs[0]);
      if orgs[0] == org {
        SettledOrgUnchanged(s, plan, plan, d, org);
      } else {
        OthersKeepSettled(s, plan, d, d', org, orgs[0]);
      }
      StaysSettled(s, plan, d', orgs[1..], org);
    }
  }

  lemma {:induction false} AllSettled(s: Source, plan: Plan, d: Db, orgs: seq<int>, org: int)
    requires FreshIds(d) && BackfillOrgs(s, plan, d, orgs).Ok? && org in orgs
    ensures OrgSettled(s, plan, BackfillOrgs(s, plan, d, orgs).value, org)
    decreases |orgs|
  {
    var d' := BackfillOrg(s, plan, d, orgs[0]).value;
    OrgGrows(s, plan, d, orgs[0]);
    if orgs[0] == org {
      OrgSettles(s, plan, d, org);
      StaysSettled(s, plan, d', orgs[1..], org);
    } else {
      AllSettled(s, plan, d', orgs[1..], org);
    }
  }

  lemma {:induction false} SettledOrgsUnchanged(s: Source, plan: Plan, again: Plan, d: Db, orgs: seq<int>)
    requires Within(again, plan) && forall o :: o in orgs ==> OrgSettled(s, plan, d, o)
    ensures BackfillOrgs(s, again, d, orgs) == Ok(d)
    decreases |orgs|
  {
    if orgs != [] {
      SettledOrgUnchanged(s, plan, again, d, orgs[0]);
      SettledOrgsUnchanged(s, plan, again, d, orgs[1..]);
    }
  }

  // ---- platform rows

  ghost predicate Seeded(d: Db, entries: seq<Entry>) {
    forall i :: 0 <= i < |entries| ==> PlatformKey(entries[i]) in d.catalog && d.catalog[PlatformKey(entries[i])].metadata == entries[i].metadata
  }

  lemma {:induction false} SeedKeeps(d: Db, entries: seq<Entry>, k: Key)
    requires k in d.catalog && forall i :: 0 <= i < |entries| ==> PlatformKey(entries[i]) != k
    ensures k in Seed(d, entries).catalog && Seed(d, entries).catalog[k] == d.catalog[k]
    decreases |entries|
  {
    if entries != [] {
      SeedKeeps(Upsert(d, entries[0]), entries[1..], k);
    }
  }

  lemma {:induction false} SeedSeeds(d: Db, entries: seq<Entry>)
    requires DistinctEntries(entries)
    ensures Seeded(Seed(d, entries), entries)
    ensures Seed(d, entries).presets == d.presets && Seed(d, entries).versions == d.versions
    decreases |entries|
  {
    if entries != [] {
      var d', rest := Upsert(d, entries[0]), entries[1..];
      SeedSeeds(d', rest);
      SeedKeeps(d', rest, PlatformKey(entries[0]));
      forall i | 0 <= i < |entries|
        ensures PlatformKey(entries[i]) in Seed(d', rest).catalog && Seed(d', rest).catalog[PlatformKey(entries[i])].metadata == entries[i].metadata
      {
        if i > 0 {
          assert entries[i] == rest[i - 1];
        }
      }
    }
  }

  lemma {:induction false} SeededUnchanged(d: Db, entries: seq<Entry>)
    requires Seeded(d, entries)
    ensures Seed(d, entries) == d
    decreases |entries|
  {
    if entries != [] {
      assert Upsert(d, entries[0]) == d;
      assert forall i :: 0 <= i < |entries| - 1 ==> entries[1..][i] == entries[i + 1];
      SeededUnchanged(d, entries[1..]);
    }
  }

  lemma {:induction false} OrgsKeepSeeded(s: Source, plan: Plan, d: Db, orgs: seq<int>, entries: seq<Entry>)
    requires FreshIds(d) && Seeded(d, entries) && BackfillOrgs(s, plan, d, orgs).Ok?
    ensures Seeded(BackfillOrgs(s, plan, d, orgs).value, entries)
    ensures BackfillOrgs(s, plan, d, orgs).value.presets == d.presets && BackfillOrgs(s, plan, d, orgs).value.versions == d.versions
    decreases |orgs|
  {
    if orgs != [] {
      OrgGrows(s, plan, d, orgs[0]);
      OrgsKeepSeeded(s, plan, BackfillOrg(s, plan, d, orgs[0]).value, orgs[1..], entries);
    }
  }

  // ---- idempotence

  lemma LinkAgain(s: Source, d: Db, d': Db, choose: set<int> -> int, choose': set<int> -> int, ps: map<int, Preset>)
    requires d'.catalog == d.catalog
    ensures LinkAll(s, d', choose', LinkAll(s, d, choose, ps)) == LinkAll(s, d, choose, ps)
  {
    forall i | i in ps ensures !Linkable(s, d', Link(s, d, choose, ps[i])) {
      var p := ps[i];
      if p.workspace in s.workspaces {
        assert ByName(d', s.workspaces[p.workspace], p) == ByName(d, s.workspaces[p.workspace], p);
      }
    }
    var once := LinkAll(s, d, choose, ps);
    assert forall i :: i in once ==> Link(s, d', choose', once[i]) == once[i];
    assert LinkAll(s, d', choose', once) == once;
  }

  /** Linking presets touches no row, grant or setting, so it unsettles nothing. */
  lemma LinkKeepsSettled(s: Source, plan: Plan, d: Db, d1: Db, org: int)
    requires OrgSettled(s, plan, d, org) && d1.catalog == d.catalog && d1.providers == d.providers && d1.grants == d.grants && d1.defaults == d.defaults
    ensures OrgSettled(s, plan, d1, org)
  {
    assert Adds(d, d1);
    AddsKeeps(s, d, d1, org);
    forall p | p in plan.direct ensures DirectSettled(s, d1, org, p) {
      assert DirectSettled(s, d, org, p) && PlatformIds(d1, p) == PlatformIds(d, p);
    }
    forall m ensures ByModel(d1, org, m) == ByModel(d, org, m) {
    }
  }

  /** A second run changes nothing, even if it goes through organizations, providers and matching rows
      in a different order and breaks ties differently. */
  lemma RunTwice(s: Source, plan: Plan, again: Plan, d: Db, d1: Db)
    requires FreshIds(d) && Run(s, plan, d) == Ok(d1) && Within(again, plan)
    ensures Run(s, again, d1) == Ok(d1)
  {
    var seeded := Seed(d, s.entries);
    SeedSeeds(d, s.entries);
    SeedKeepsIds(d, s.entries);
    var d' := BackfillOrgs(s, plan, seeded, plan.orgs).value;
    OrgsKeepSeeded(s, plan, seeded, plan.orgs, s.entries);
    SeededUnchanged(d1, s.entries);
    forall o | o in again.orgs ensures OrgSettled(s, plan, d1, o) {
      AllSettled(s, plan, seeded, plan.orgs, o);
      LinkKeepsSettled(s, plan, d', d1, o);
    }
    SettledOrgsUnchanged(s, plan, again, d1, again.orgs);
    LinkAgain(s, d', d1, plan.choose, again.choose, d'.presets);
    LinkAgain(s, d', d1, plan.choose, again.choose, d'.versions);
  }

  ghost predicate Fair(choose: set<int> -> int) {
    forall ids :: ids != {} ==> choose(ids) in ids
  }

  ghost predicate HasId(d: Db, k: Key, id: int) {
    k in d.catalog && d.catalog[k].id == id
  }

  /** `p'` is what linking should make of `p`: unchanged if it was linked or nothing matches, else linked
      to the one catalog row with some id - which has the preset's provider and model name, and is a
      platform row, or of the preset's own organization and no platform row matches. */
  ghost predicate LinkedRightly(s: Source, d: Db, p: Preset, p': Preset) {
    if !Linkable(s, d, p) then p' == p
    else
      var org := s.workspaces[p.workspace];
      && p' == p.(catalogId := p'.catalogId) && p'.catalogId.Some?
      && exists k :: && HasId(d, k, p'.catalogId.value) && (forall l :: HasId(d, l, p'.catalogId.value) ==> l == k)
                     && k.provider == p.provider && k.model == p.model
                     && (k.org.None? || (k.org == Some(org) && forall x :: x in ByName(d, org, p) ==> x.org.Some?))
  }

  /** A candidate is the id of a matching row, of the platform if any. */
  lemma CandidateRow(d: Db, keys: set<Key>, id: int) returns (k: Key)
    requires keys <= d.catalog.Keys && id in Candidates(d, keys)
    ensures k in keys && d.catalog[k].id == id
    ensures k.org.None? || forall x :: x in keys ==> x.org.Some?
  {
    var platform := set k | k in keys && k.org.None?;
    var pool := if platform != {} then platform else keys;
    k :| k in pool && d.catalog[k].id == id;
    if platform == {} {
      forall x | x in keys ensures x.org.Some? {
        assert x !in platform;
      }
    }
  }

  lemma SomeCandidate(d: Db, keys: set<Key>)
    requires keys <= d.catalog.Keys && keys != {}
    ensures Candidates(d, keys) != {}
  {
    var platform := set k | k in keys && k.org.None?;
    var pool := if platform != {} then platform else keys;
    var x :| x in pool;
    assert d.catalog[x].id in Candidates(d, keys);
  }

  lemma LinkIsRight(s: Source, d: Db, choose: set<int> -> int, p: Preset)
    requires FreshIds(d) && Fair(choose)
    ensures LinkedRightly(s, d, p, Link(s, d, choose, p))
  {
    if Linkable(s, d, p) {
      var keys := ByName(d, s.workspaces[p.workspace], p);
      SomeCandidate(d, keys);
      var id := choose(Candidates(d, keys));
      assert id in Candidates(d, keys);
      var k := CandidateRow(d, keys, id);
      assert HasId(d, k, id) && forall l :: HasId(d, l, id) ==> l == k;
    }
  }

  lemma {:induction false} OrgsKeepIds(s: Source, plan: Plan, d: Db, orgs: seq<int>)
    requires FreshIds(d) && BackfillOrgs(s, plan, d, orgs).Ok?
    ensures FreshIds(BackfillOrgs(s, plan, d, orgs).value)
    decreases |orgs|
  {
    if orgs != [] {
      OrgGrows(s, plan, d, orgs[0]);
      OrgsKeepIds(s, plan, BackfillOrg(s, plan, d, orgs[0]).value, orgs[1..]);
    }
  }

  ghost predicate AllLinkedRightly(s: Source, d: Db, before: map<int, Preset>, after: map<int, Preset>) {
    after.Keys == before.Keys && forall i :: i in before ==> LinkedRightly(s, d, before[i], after[i])
  }

  lemma LinkAllIsRight(s: Source, d: Db, choose: set<int> -> int, ps: map<int, Preset>)
    requires FreshIds(d) && Fair(choose)
    ensures AllLinkedRightly(s, d, ps, LinkAll(s, d, choose, ps))
  {
    forall i | i in ps ensures LinkedRightly(s, d, ps[i], LinkAll(s, d, choose, ps)[i]) {
      LinkIsRight(s, d, choose, ps[i]);
    }
  }

  /** After a run each preset and each preset version is linked as it should be, in terms of the catalog
      the run leaves behind. */
  lemma LinksAreVisible(s: Source, plan: Plan, d: Db, d1: Db)
    requires FreshIds(d) && Fair(plan.choose) && Run(s, plan, d) == Ok(d1)
    ensures AllLinkedRightly(s, d1, d.presets, d1.presets) && AllLinkedRightly(s, d1, d.versions, d1.versions)
  {
    var seeded := Seed(d, s.entries);
    SeedSeeds(d, s.entries);
    SeedKeepsIds(d, s.entries);
    OrgsKeepSeeded(s, plan, seeded, plan.orgs, s.entries);
    OrgsKeepIds(s, plan, seeded, plan.orgs);
    var d' := BackfillOrgs(s, plan, seeded, plan.orgs).value;
    LinkAllIsRight(s, d', plan.choose, d'.presets);
    LinkAllIsRight(s, d', plan.choose, d'.versions);
    SameCatalogLinks(s, d', d1, d.presets, d1.presets);
    SameCatalogLinks(s, d', d1, d.versions, d1.versions);
  }

  lemma SameCatalogLinks(s: Source, d: Db, d1: Db, before: map<int, Preset>, after: map<int, Preset>)
    requires d1.catalog == d.catalog && AllLinkedRightly(s, d, before, after)
    ensures AllLinkedRightly(s, d1, before, after)
  {
    forall i | i in before ensures LinkedRightly(s, d1, before[i], after[i]) {
      SameCatalogLink(s, d, d1, before[i], after[i]);
    }
  }

  lemma SameCatalogLink(s: Source, d: Db, d1: Db, p: Preset, p': Preset)
    requires d1.catalog == d.catalog && LinkedRightly(s, d, p, p')
    ensures LinkedRightly(s, d1, p, p')
  {
    if p.workspace in s.workspaces {
      assert ByName(d1, s.workspaces[p.workspace], p) == ByName(d, s.workspaces[p.workspace], p);
    }
    if Linkable(s, d, p) {
      assert forall k, id :: HasId(d, k, id) <==> HasId(d1, k, id);
    }
  }
}
