/** Who may translate: provider profiles, their credentials and the consent to send content off the device. */
module TranslationSettings {
  import opened Options
  import opened Text

  datatype SettingsError =
    | ProfileNotFound | ProfileNotReady | EdgeProfileExists | CredentialKindInvalid | CredentialInvalid
    | CredentialRequired | EncryptFailed | DecryptFailed | ConsentNotRequired | IdInvalid | NameInvalid
    | TargetInvalid | ConfigInvalid | EndpointInvalid | LanguageInvalid

  datatype Result<+T> = Ok(value: T) | Err(error: SettingsError)

  datatype ProviderKind = EdgeLocal | DeepL | GoogleCloud | AzureTranslator | BingWeb
  datatype Target = WebView | LocalService | RemoteService
  datatype CredentialKind = DeepLApiKey | GoogleApiKey | GoogleServiceAccount | AzureApiKey

  datatype Provider =
    | UseEdge
    | UseDeepL(pro: bool)
    | UseGoogle(projectId: string, location: Option<string>)
    | UseAzure(endpoint: string, region: Option<string>)
    | UseBing(market: Option<string>)
  {
    function Kind(): ProviderKind {
      match this
      case UseEdge => EdgeLocal
      case UseDeepL(_) => DeepL
      case UseGoogle(_, _) => GoogleCloud
      case UseAzure(_, _) => AzureTranslator
      case UseBing(_) => BingWeb
    }

    predicate RequiresCredentials() {
      UseDeepL? || UseGoogle? || UseAzure?
    }
  }

  datatype Descriptor = Descriptor(
    targets: set<Target>, credentialKinds: set<CredentialKind>, offDevice: bool, experimental: bool,
    providerRevision: string, disclosureRevision: string)

  /** The entry of `provider_registry` for a kind. */
  function DescriptorOf(kind: ProviderKind): Descriptor {
    var service := {LocalService, RemoteService};
    match kind
    case EdgeLocal => Descriptor({WebView}, {}, false, false, "edge-local-v1", "edge-local-v1")
    case DeepL => Descriptor(service, {DeepLApiKey}, true, false, "deepl-v1", "deepl-cloud-v1")
    case GoogleCloud =>
      Descriptor(service, {GoogleApiKey, GoogleServiceAccount}, true, false, "google-cloud-v1", "google-cloud-v1")
    case AzureTranslator => Descriptor(service, {AzureApiKey}, true, false, "azure-translator-v1", "azure-translator-v1")
    case BingWeb => Descriptor(service, {}, true, true, "bing-web-experimental-v1", "bing-web-experimental-v1")
  }

  datatype CredentialRef = CredentialRef(id: string, kind: CredentialKind)
  datatype Consent = Consent(profileId: string, disclosureRevision: string, acceptedAt: string)
  datatype Profile = Profile(
    id: string, displayName: string, target: Target, provider: Provider, credential: Option<CredentialRef>, enabled: bool)
  datatype Record = Record(
    ownerId: string, profile: Profile, consent: Option<Consent>, encrypted: Option<string>,
    createdAt: string, updatedAt: string)
  datatype ProfileInput = ProfileInput(displayName: string, target: Target, provider: Provider, enabled: bool)
  datatype Preferences = Preferences(defaultTarget: Option<string>, autoTranslate: bool, cacheTranslations: bool)
  datatype Status = Configured | Disabled | NeedsCredential | NeedsConsent | RuntimeCheckRequired | Experimental

  /** What the authenticated encryption of credentials has to offer. */
  datatype Codec = Codec(
    encrypt: (nat, CredentialKind, string) -> Option<string>,
    decrypt: string -> Option<(CredentialKind, string)>)

  /** Whatever was encrypted decrypts to itself. */
  ghost predicate Faithful(codec: Codec) {
    forall nonce, kind, secret :: var c := codec.encrypt(nonce, kind, secret);
      c.Some? ==> codec.decrypt(c.value) == Some((kind, secret))
  }

  const MAX_SECRET_BYTES: nat := 131072

  // ---- Validation ----

  predicate ValidId(id: string) {
    id != "" && Utf8Len(id) <= 80 && forall i :: 0 <= i < |id| ==> AsciiAlnum(id[i]) || id[i] == '-' || id[i] == '_'
  }

  predicate ValidLanguage(language: string) {
    2 <= Utf8Len(language) <= 35 && forall i :: 0 <= i < |language| ==> AsciiAlnum(language[i]) || language[i] == '-'
  }

  predicate ValidField(value: string, maximum: nat) {
    Trim(value) != "" && Utf8Len(value) <= maximum
  }

  predicate ValidOptional(value: Option<string>, maximum: nat) {
    value.Some? ==> ValidField(value.value, maximum)
  }

  predicate StartsWith(s: string, prefix: string) {
    |prefix| <= |s| && s[..|prefix|] == prefix
  }

  function ValidateProvider(provider: Provider): Option<SettingsError> {
    match provider
    case UseGoogle(project, location) =>
      if ValidField(project, 160) && ValidOptional(location, 80)
         && (forall i :: 0 <= i < |project| ==>
               AsciiAlnum(project[i]) || project[i] == '-' || project[i] == '.' || project[i] == ':')
         && (location.Some? ==> forall i :: 0 <= i < |location.value| ==>
               AsciiAlnum(location.value[i]) || location.value[i] == '-')
      then None else Some(ConfigInvalid)
    case UseAzure(endpoint, region) =>
      if !StartsWith(endpoint, "https://") || Utf8Len(endpoint) > 500 then Some(EndpointInvalid)
      else if ValidOptional(region, 80) then None else Some(ConfigInvalid)
    case UseBing(market) => if ValidOptional(market, 40) then None else Some(ConfigInvalid)
    case _ => None
  }

  function ValidateProfile(id: string, input: ProfileInput): Option<SettingsError> {
    if !ValidId(id) then Some(IdInvalid)
    else if Trim(input.displayName) == "" || |Trim(input.displayName)| > 80 then Some(NameInvalid)
    else if input.target !in DescriptorOf(input.provider.Kind()).targets then Some(TargetInvalid)
    else ValidateProvider(input.provider)
  }

  // ---- Status ----

  /** `profile_status`. */
  function ProfileStatus(r: Record): Status {
    var d := DescriptorOf(r.profile.provider.Kind());
    var consentCurrent := r.consent.Some? && r.consent.value.disclosureRevision == d.disclosureRevision;
    if !r.profile.enabled then Disabled
    else if r.profile.provider.RequiresCredentials() && r.profile.credential.None? then NeedsCredential
    else if d.offDevice && !consentCurrent then NeedsConsent
    else if r.profile.provider.Kind() == EdgeLocal then RuntimeCheckRequired
    else if d.experimental then Experimental
    else Configured
  }

  predicate Ready(r: Record) {
    ProfileStatus(r) !in {Disabled, NeedsCredential, NeedsConsent}
  }

  // ---- The invariant of one record ----

  /** What every stored record satisfies; `secret` is the last one set and not cleared since. */
  ghost predicate RecordOk(codec: Codec, key: (string, string), r: Record, secret: Option<(CredentialKind, string)>) {
    var d := DescriptorOf(r.profile.provider.Kind());
    && r.ownerId == key.0 && r.profile.id == key.1
    && r.profile.target in d.targets
    && (r.profile.provider.UseAzure? ==> StartsWith(r.profile.provider.endpoint, "https://"))
    && (r.profile.credential.Some? <==> r.encrypted.Some?)
    && (r.profile.credential.Some? <==> secret.Some?)
    && (r.profile.credential.Some? ==>
          && r.profile.credential.value == CredentialRef(key.1, secret.value.0)
          && r.profile.credential.value.kind in d.credentialKinds
          && codec.decrypt(r.encrypted.value) == Some(secret.value)
          && secret.value.1 != "" && Trim(secret.value.1) == secret.value.1)
    && (r.consent.Some? ==>
          && d.offDevice
          && r.consent.value.profileId == key.1
          && r.consent.value.disclosureRevision == d.disclosureRevision)
  }

  /** On such records, ready means enabled, credentialed where required and consented where required; no more, no less. */
  lemma ReadyExactly(codec: Codec, key: (string, string), r: Record, secret: Option<(CredentialKind, string)>)
    requires RecordOk(codec, key, r, secret)
    ensures Ready(r) <==>
      && r.profile.enabled
      && (NeedsSecret(r.profile.provider) ==> secret.Some?)
      && (!r.profile.provider.UseEdge? ==> r.consent.Some?)
  {
    CredentialsExactly(r.profile.provider);
  }

  /** The registry lists a kind of credential for the provider. */
  predicate NeedsSecret(p: Provider) {
    DescriptorOf(p.Kind()).credentialKinds != {}
  }

  lemma CredentialsExactly(p: Provider)
    ensures p.RequiresCredentials() <==> NeedsSecret(p)
  {
    if p.RequiresCredentials() {
      assert (if p.UseDeepL? then DeepLApiKey else if p.UseGoogle? then GoogleApiKey else AzureApiKey)
        in DescriptorOf(p.Kind()).credentialKinds;
    }
  }

  /** Each status says exactly one thing about the record. */
  lemma StatusExactly(codec: Codec, key: (string, string), r: Record, secret: Option<(CredentialKind, string)>)
    requires RecordOk(codec, key, r, secret)
    ensures ProfileStatus(r) == Disabled <==> !r.profile.enabled
    ensures ProfileStatus(r) == NeedsCredential <==> r.profile.enabled && NeedsSecret(r.profile.provider) && secret.None?
    ensures ProfileStatus(r) == NeedsConsent <==>
      r.profile.enabled && (NeedsSecret(r.profile.provider) ==> secret.Some?) && !r.profile.provider.UseEdge? && r.consent.None?
    ensures ProfileStatus(r) == RuntimeCheckRequired <==> r.profile.enabled && r.profile.provider.UseEdge?
    ensures ProfileStatus(r) == Experimental <==> r.profile.enabled && r.profile.provider.UseBing? && r.consent.Some?
    ensures ProfileStatus(r) == Configured <==>
      r.profile.enabled && NeedsSecret(r.profile.provider) && secret.Some? && r.consent.Some?
  {
    CredentialsExactly(r.profile.provider);
  }

  // ---- The record a successful upsert writes ----

  function UpsertRecord(existing: Option<Record>, user: string, id: string, input: ProfileInput, now: string): Record {
    var allowed := DescriptorOf(input.provider.Kind()).credentialKinds;
    var credential :=
      if existing.Some? && existing.value.profile.credential.Some? && existing.value.profile.credential.value.kind in allowed
      then existing.value.profile.credential else None;
    var encrypted := if existing.Some? && credential.Some? then existing.value.encrypted else None;
    var consent :=
      if existing.Some? && existing.value.profile.provider == input.provider then existing.value.consent else None;
    Record(user, Profile(id, Trim(input.displayName), input.target, input.provider, credential, input.enabled),
           consent, encrypted, if existing.Some? then existing.value.createdAt else now, now)
  }

  /** What an upsert takes over: a secret the new provider can use, a consent given for just this provider, the creation time. */
  lemma UpsertKeepsExactly(codec: Codec, key: (string, string), existing: Record, input: ProfileInput, now: string,
                           secret: Option<(CredentialKind, string)>)
    requires RecordOk(codec, key, existing, secret)
    ensures var r := UpsertRecord(Some(existing), key.0, key.1, input, now);
      && (r.profile.credential.Some? <==> secret.Some? && secret.value.0 in DescriptorOf(input.provider.Kind()).credentialKinds)
      && (r.encrypted.Some? ==> codec.decrypt(r.encrypted.value) == secret)
      && (r.consent.Some? <==> existing.consent.Some? && input.provider == existing.profile.provider)
      && r.createdAt == existing.createdAt && r.updatedAt == now
      && r.profile.provider == input.provider && r.profile.target == input.target && r.profile.enabled == input.enabled
      && r.profile.displayName == Trim(input.displayName)
  {
  }

  /** Saving the same input again changes only the time; a profile that was ready stays ready. */
  lemma UpsertTwice(existing: Option<Record>, user: string, id: string, input: ProfileInput, now: string, later: string)
    ensures var r := UpsertRecord(existing, user, id, input, now);
      && UpsertRecord(Some(r), user, id, input, later) == r.(updatedAt := later)
      && (Ready(r) ==> Ready(UpsertRecord(Some(r), user, id, input, later)))
  {
  }

  type Records = map<(string, string), Record>

  function Lookup(records: Records, user: string, id: string): Option<Record> {
    if (user, id) in records then Some(records[(user, id)]) else None
  }

  ghost predicate IsEdge(records: Records, user: string, id: string) {
    (user, id) in records && records[(user, id)].profile.provider.UseEdge?
  }

  ghost predicate HasEdge(records: Records, user: string) {
    exists id :: IsEdge(records, user, id)
  }

  predicate AnyEdge(records: Records, user: string) {
    exists key | key in records :: key.0 == user && records[key].profile.provider.UseEdge?
  }

  lemma AnyEdgeIsHasEdge(records: Records, user: string)
    ensures AnyEdge(records, user) <==> HasEdge(records, user)
  {
    if AnyEdge(records, user) {
      var key :| key in records && key.0 == user && records[key].profile.provider.UseEdge?;
      assert IsEdge(records, user, key.1);
    }
  }

  ghost predicate AtMostOneEdge(records: Records, user: string) {
    forall i, j :: IsEdge(records, user, i) && IsEdge(records, user, j) ==> i == j
  }

  /** The guard against a second local profile looks only at new ids. */
  ghost predicate EdgeGuard(records: Records, user: string, id: string, input: ProfileInput) {
    (user, id) !in records && input.provider.UseEdge? && HasEdge(records, user)
  }

  /**
  An accepted upsert keeps a single local profile exactly when it does not turn an existing profile
  into a second one.
  */
  lemma EdgeStaysSingleExactly(records: Records, user: string, id: string, input: ProfileInput, now: string)
    requires AtMostOneEdge(records, user) && !EdgeGuard(records, user, id, input)
    ensures var after := records[(user, id) := UpsertRecord(Lookup(records, user, id), user, id, input, now)];
      AtMostOneEdge(after, user) <==>
        !((user, id) in records && !IsEdge(records, user, id) && input.provider.UseEdge? && HasEdge(records, user))
  {
    var after := records[(user, id) := UpsertRecord(Lookup(records, user, id), user, id, input, now)];
    assert forall j :: j != id ==> (IsEdge(after, user, j) <==> IsEdge(records, user, j));
    assert IsEdge(after, user, id) <==> input.provider.UseEdge?;
    if (user, id) in records && !IsEdge(records, user, id) && input.provider.UseEdge? && HasEdge(records, user) {
      var other :| IsEdge(records, user, other);
      assert IsEdge(after, user, other) && IsEdge(after, user, id) && other != id;
    }
  }

  function EdgeInput(): ProfileInput {
    ProfileInput("e", WebView, UseEdge, true)
  }

  function BingInput(): ProfileInput {
    ProfileInput("b", LocalService, UseBing(None), true)
  }

  lemma SampleInputsValid(id: string)
    requires id in {"a", "b"}
    ensures ValidateProfile(id, EdgeInput()).None? && ValidateProfile(id, BingInput()).None?
  {
    TrimFixed("e");
    TrimFixed("b");
    assert id[1..] == "";
  }

  /** Three accepted upserts from an empty store: a local profile, a web one, and the web one made local. */
  lemma SecondLocalProfile()
    ensures var one: Records := map[("u", "a") := UpsertRecord(None, "u", "a", EdgeInput(), "t")];
      var two := one[("u", "b") := UpsertRecord(None, "u", "b", BingInput(), "t")];
      var three := two[("u", "b") := UpsertRecord(Lookup(two, "u", "b"), "u", "b", EdgeInput(), "t")];
      && ValidateProfile("a", EdgeInput()).None? && !EdgeGuard(map[], "u", "a", EdgeInput())
      && ValidateProfile("b", BingInput()).None? && !EdgeGuard(one, "u", "b", BingInput())
      && ValidateProfile("b", EdgeInput()).None? && !EdgeGuard(two, "u", "b", EdgeInput())
      && AtMostOneEdge(two, "u") && !AtMostOneEdge(three, "u")
  {
    SampleInputsValid("a");
    SampleInputsValid("b");
    var one: Records := map[("u", "a") := UpsertRecord(None, "u", "a", EdgeInput(), "t")];
    var two := one[("u", "b") := UpsertRecord(None, "u", "b", BingInput(), "t")];
    assert "a"[0] != "b"[0];
    assert IsEdge(two, "u", "a") && forall id :: IsEdge(two, "u", id) ==> id == "a";
    EdgeStaysSingleExactly(two, "u", "b", EdgeInput(), "t");
  }

  lemma UpsertKeepsRecord(codec: Codec, key: (string, string), existing: Option<Record>, input: ProfileInput, now: string,
                          secret: Option<(CredentialKind, string)>)
    requires ValidateProfile(key.1, input).None?
    requires existing.None? ==> secret.None?
    requires existing.Some? ==> RecordOk(codec, key, existing.value, secret)
    ensures var r := UpsertRecord(existing, key.0, key.1, input, now);
      RecordOk(codec, key, r, if r.profile.credential.Some? then secret else None)
  {
  }

  // ---- The service ----

  /** `profile_view`: the ciphertext stays behind. */
  datatype ProfileView = ProfileView(profile: Profile, status: Status, consent: Option<Consent>)

  datatype SettingsView = SettingsView(defaultProfile: Option<string>, profiles: seq<ProfileView>)

  class SettingsService {
    const codec: Codec
    var records: Records
    var preferences: map<string, Preferences>
    var defaults: map<string, string>
    ghost var secrets: map<(string, string), (CredentialKind, string)>

    ghost function Secret(key: (string, string)): Option<(CredentialKind, string)>
      reads this
    {
      if key in secrets then Some(secrets[key]) else None
    }

    ghost predicate Valid()
      reads this
    {
      && Faithful(codec)
      && secrets.Keys <= records.Keys
      && forall key :: key in records ==> RecordOk(codec, key, records[key], Secret(key))
    }

    constructor (codec: Codec)
      requires Faithful(codec)
      ensures Valid() && this.codec == codec && records == map[] && preferences == map[] && defaults == map[]
    {
      this.codec, records, preferences, defaults, secrets := codec, map[], map[], map[], map[];
    }

    /** What using the profile takes: enabled, with a secret where one is required, and consent to leave the device. */
    ghost predicate Usable(user: string, id: string)
      reads this
    {
      && (user, id) in records
      && records[(user, id)].profile.enabled
      && (NeedsSecret(records[(user, id)].profile.provider) ==> (user, id) in secrets)
      && (!records[(user, id)].profile.provider.UseEdge? ==> records[(user, id)].consent.Some?)
    }

    lemma ReadyIsUsable(user: string, id: string)
      requires Valid() && (user, id) in records
      ensures Ready(records[(user, id)]) <==> Usable(user, id)
    {
      ReadyExactly(codec, (user, id), records[(user, id)], Secret((user, id)));
    }

    /** The listing holds the user's records, each once. */
    ghost predicate ListsProfiles(user: string, listed: seq<Record>)
      reads this
    {
      && (forall r :: r in listed ==> (user, r.profile.id) in records && records[(user, r.profile.id)] == r)
      && (forall id :: (user, id) in records ==> records[(user, id)] in listed)
      && (forall i, j :: 0 <= i < j < |listed| ==> listed[i].profile.id != listed[j].profile.id)
    }

    /** `list_translation_providers`, in any order. */
    method ListProfiles(user: string) returns (listed: seq<Record>)
      requires Valid()
      ensures ListsProfiles(user, listed)
    {
      listed := [];
      var todo := records.Keys;
      while todo != {}
        invariant todo <= records.Keys
        invariant forall r :: r in listed ==>
          (user, r.profile.id) in records && records[(user, r.profile.id)] == r && (user, r.profile.id) !in todo
        invariant forall id :: (user, id) in records ==> (user, id) in todo || records[(user, id)] in listed
        invariant forall i, j :: 0 <= i < j < |listed| ==> listed[i].profile.id != listed[j].profile.id
        decreases |todo|
      {
        var key :| key in todo;
        assert RecordOk(codec, key, records[key], Secret(key));
        if key.0 == user {
          listed := listed + [records[key]];
        }
        todo := todo - {key};
      }
    }

    /**
    A default profile is shown exactly while it can be used; the profiles are the user's, each once, and their status
    says whether they can be.
    */
    method Read(user: string) returns (view: SettingsView)
      requires Valid()
      ensures view.defaultProfile == if user in defaults && Usable(user, defaults[user]) then Some(defaults[user]) else None
      ensures forall id :: (user, id) in records <==> exists v :: v in view.profiles && v.profile.id == id
      ensures forall i, j :: 0 <= i < j < |view.profiles| ==> view.profiles[i].profile.id != view.profiles[j].profile.id
      ensures forall v :: v in view.profiles ==> Shows(user, v)
    {
      var listed := ListProfiles(user);
      var found := false;
      if user in defaults {
        found := AnyReady(user, listed, defaults[user]);
      }
      var profiles := ViewAll(user, listed);
      view := SettingsView(if found then Some(defaults[user]) else None, profiles);
    }

    /** The view is that of a stored record, and its status refuses use exactly where something is missing. */
    ghost predicate Shows(user: string, v: ProfileView)
      reads this
    {
      && (user, v.profile.id) in records
      && v.profile == records[(user, v.profile.id)].profile && v.consent == records[(user, v.profile.id)].consent
      && (v.status in {Disabled, NeedsCredential, NeedsConsent} <==> !Usable(user, v.profile.id))
    }

    /** The scan for the default profile. */
    method AnyReady(user: string, listed: seq<Record>, id: string) returns (found: bool)
      requires Valid() && ListsProfiles(user, listed)
      ensures found <==> Usable(user, id)
    {
      found := false;
      for i := 0 to |listed|
        invariant found <==> exists j :: 0 <= j < i && listed[j].profile.id == id && Ready(listed[j])
      {
        if listed[i].profile.id == id && Ready(listed[i]) {
          found := true;
        }
      }
      if (user, id) in records {
        ReadyIsUsable(user, id);
        assert records[(user, id)] in listed && RecordOk(codec, (user, id), records[(user, id)], Secret((user, id)));
      }
    }

    method ViewAll(user: string, listed: seq<Record>) returns (profiles: seq<ProfileView>)
      requires Valid() && ListsProfiles(user, listed)
      ensures forall id :: (user, id) in records <==> exists v :: v in profiles && v.profile.id == id
      ensures forall i, j :: 0 <= i < j < |profiles| ==> profiles[i].profile.id != profiles[j].profile.id
      ensures forall v :: v in profiles ==> Shows(user, v)
    {
      profiles := [];
      for i := 0 to |listed|
        invariant |profiles| == i && forall j :: 0 <= j < i ==> profiles[j].profile == listed[j].profile
        invariant forall v :: v in profiles ==> Shows(user, v)
      {
        assert listed[i] in listed;
        ReadyIsUsable(user, listed[i].profile.id);
        profiles := profiles + [ProfileView(listed[i].profile, ProfileStatus(listed[i]), listed[i].consent)];
      }
      AllViewed(user, listed, profiles);
    }

    lemma AllViewed(user: string, listed: seq<Record>, profiles: seq<ProfileView>)
      requires Valid() && ListsProfiles(user, listed) && |profiles| == |listed|
      requires forall j :: 0 <= j < |listed| ==> profiles[j].profile == listed[j].profile
      requires forall v :: v in profiles ==> Shows(user, v)
      ensures forall id :: (user, id) in records <==> exists v :: v in profiles && v.profile.id == id
    {
      forall id | (user, id) in records
        ensures exists v :: v in profiles && v.profile.id == id
      {
        assert RecordOk(codec, (user, id), records[(user, id)], Secret((user, id)));
        var i :| 0 <= i < |listed| && listed[i] == records[(user, id)];
        assert profiles[i] in profiles;
      }
    }

    method Update(user: string, prefs: Preferences, defaultProfile: Option<string>) returns (r: Result<()>)
      requires Valid()
      modifies this`preferences, this`defaults
      ensures Valid()
      ensures r.Ok? <==>
        && (prefs.defaultTarget.Some? ==> ValidLanguage(prefs.defaultTarget.value))
        && (defaultProfile.Some? ==> Usable(user, defaultProfile.value))
      ensures r.Ok? ==> preferences == old(preferences)[user := prefs]
      ensures r.Ok? && defaultProfile.Some? ==> defaults == old(defaults)[user := defaultProfile.value]
      ensures r.Ok? && defaultProfile.None? ==> defaults == old(defaults) - {user}
      ensures r.Err? ==> preferences == old(preferences) && defaults == old(defaults)
    {
      if prefs.defaultTarget.Some? && !ValidLanguage(prefs.defaultTarget.value) {
        return Err(LanguageInvalid);
      }
      if defaultProfile.Some? {
        if (user, defaultProfile.value) !in records {
          return Err(ProfileNotFound);
        }
        ReadyIsUsable(user, defaultProfile.value);
        if !Ready(records[(user, defaultProfile.value)]) {
          return Err(ProfileNotReady);
        }
      }
      preferences := preferences[user := prefs];
      defaults := if defaultProfile.Some? then defaults[user := defaultProfile.value] else defaults - {user};
      r := Ok(());
    }

    method UpsertProfile(user: string, id: string, input: ProfileInput, now: string) returns (r: Result<()>)
      requires Valid()
      modifies this`records, this`secrets
      ensures Valid()
      ensures r.Ok? <==> ValidateProfile(id, input).None? && !EdgeGuard(old(records), user, id, input)
      ensures r.Ok? ==>
        records == old(records)[(user, id) := UpsertRecord(Lookup(old(records), user, id), user, id, input, now)]
      ensures r.Ok? && records[(user, id)].profile.credential.Some? ==> secrets == old(secrets)
      ensures r.Ok? && records[(user, id)].profile.credential.None? ==> secrets == old(secrets) - {(user, id)}
      ensures r.Err? ==> records == old(records) && secrets == old(secrets)
    {
      var invalid := ValidateProfile(id, input);
      if invalid.Some? {
        return Err(invalid.value);
      }
      var existing := Lookup(records, user, id);
      AnyEdgeIsHasEdge(records, user);
      if existing.None? && input.provider.UseEdge? && AnyEdge(records, user) {
        return Err(EdgeProfileExists);
      }
      var record := UpsertRecord(existing, user, id, input, now);
      UpsertKeepsRecord(codec, (user, id), existing, input, now, Secret((user, id)));
      records := records[(user, id) := record];
      if record.profile.credential.None? {
        secrets := secrets - {(user, id)};
      }
      r := Ok(());
    }

    method SetCredential(user: string, id: string, kind: CredentialKind, secret: string, nonce: nat, now: string)
      returns (r: Result<()>)
      requires Valid()
      modifies this`records, this`secrets
      ensures Valid()
      ensures r.Ok? <==>
        && (user, id) in old(records)
        && kind in DescriptorOf(old(records)[(user, id)].profile.provider.Kind()).credentialKinds
        && Trim(secret) != "" && Utf8Len(Trim(secret)) <= MAX_SECRET_BYTES
        && codec.encrypt(nonce, kind, Trim(secret)).Some?
      ensures r.Ok? ==> secrets == old(secrets)[(user, id) := (kind, Trim(secret))]
      ensures r.Ok? ==> records == old(records)[(user, id) := old(records)[(user, id)].(
          profile := old(records)[(user, id)].profile.(credential := Some(CredentialRef(id, kind))),
          encrypted := codec.encrypt(nonce, kind, Trim(secret)), updatedAt := now)]
      ensures r.Err? ==> records == old(records) && secrets == old(secrets)
    {
      var key := (user, id);
      if key !in records {
        return Err(ProfileNotFound);
      }
      var record := records[key];
      if kind !in DescriptorOf(record.profile.provider.Kind()).credentialKinds {
        return Err(CredentialKindInvalid);
      }
      var trimmed := Trim(secret);
      if trimmed == "" || Utf8Len(trimmed) > MAX_SECRET_BYTES {
        return Err(CredentialInvalid);
      }
      var encrypted := codec.encrypt(nonce, kind, trimmed);
      if encrypted.None? {
        return Err(EncryptFailed);
      }
      TrimIdempotent(secret);
      records := records[key := record.(
        profile := record.profile.(credential := Some(CredentialRef(id, kind))),
        encrypted := encrypted, updatedAt := now)];
      secrets := secrets[key := (kind, trimmed)];
      r := Ok(());
    }

    method ClearCredential(user: string, id: string, now: string) returns (r: Result<()>)
      requires Valid()
      modifies this`records, this`secrets
      ensures Valid()
      ensures r.Ok? <==> (user, id) in old(records)
      ensures r.Ok? ==> secrets == old(secrets) - {(user, id)}
      ensures r.Ok? ==> records == old(records)[(user, id) := old(records)[(user, id)].(
          profile := old(records)[(user, id)].profile.(credential := None), encrypted := None, updatedAt := now)]
      ensures r.Err? ==> records == old(records) && secrets == old(secrets)
    {
      var key := (user, id);
      if key !in records {
        return Err(ProfileNotFound);
      }
      var record := records[key];
      records := records[key := record.(
        profile := record.profile.(credential := None), encrypted := None, updatedAt := now)];
      secrets := secrets - {key};
      r := Ok(());
    }

    /** The secret read back is the trimmed one last set, to a caller that expects its kind. */
    method CredentialSecret(user: string, id: string, expected: CredentialKind) returns (r: Result<string>)
      requires Valid()
      ensures r.Ok? <==> (user, id) in secrets && secrets[(user, id)].0 == expected
      ensures r.Ok? ==> r.value == secrets[(user, id)].1
    {
      var key := (user, id);
      if key !in records {
        return Err(ProfileNotFound);
      }
      var record := records[key];
      assert RecordOk(codec, key, record, Secret(key));
      if record.profile.credential.None? {
        return Err(CredentialRequired);
      }
      if record.profile.credential.value.kind != expected {
        return Err(CredentialKindInvalid);
      }
      if record.encrypted.None? {
        return Err(CredentialRequired);
      }
      var value := codec.decrypt(record.encrypted.value);
      if value.None? {
        return Err(DecryptFailed);
      }
      var secret := Trim(value.value.1);
      if secret == "" {
        return Err(CredentialInvalid);
      }
      if value.value.0 != expected {
        return Err(CredentialKindInvalid);
      }
      r := Ok(secret);
    }

    method AcceptConsent(user: string, id: string, now: string) returns (r: Result<()>)
      requires Valid()
      modifies this`records
      ensures Valid()
      ensures r.Ok? <==> (user, id) in old(records) && !old(records)[(user, id)].profile.provider.UseEdge?
      ensures r.Ok? ==> var d := DescriptorOf(old(records)[(user, id)].profile.provider.Kind());
        records == old(records)[(user, id) := old(records)[(user, id)].(
          consent := Some(Consent(id, d.disclosureRevision, now)), updatedAt := now)]
      ensures r.Err? ==> records == old(records)
    {
      var key := (user, id);
      if key !in records {
        return Err(ProfileNotFound);
      }
      var record := records[key];
      var d := DescriptorOf(record.profile.provider.Kind());
      if !d.offDevice {
        return Err(ConsentNotRequired);
      }
      records := records[key := record.(consent := Some(Consent(id, d.disclosureRevision, now)), updatedAt := now)];
      r := Ok(());
    }

    method RevokeConsent(user: string, id: string, now: string) returns (r: Result<()>)
      requires Valid()
      modifies this`records
      ensures Valid()
      ensures r.Ok? <==> (user, id) in old(records)
      ensures r.Ok? ==>
        records == old(records)[(user, id) := old(records)[(user, id)].(consent := None, updatedAt := now)]
      ensures r.Ok? && !records[(user, id)].profile.provider.UseEdge? ==> !Usable(user, id)
      ensures r.Err? ==> records == old(records)
    {
      var key := (user, id);
      if key !in records {
        return Err(ProfileNotFound);
      }
      records := records[key := records[key].(consent := None, updatedAt := now)];
      r := Ok(());
    }

    method DeleteProfile(user: string, id: string) returns (r: Result<()>)
      requires Valid()
      modifies this`records, this`secrets, this`defaults
      ensures Valid()
      ensures r.Ok? <==> (user, id) in old(records)
      ensures r.Ok? ==> records == old(records) - {(user, id)} && secrets == old(secrets) - {(user, id)}
      ensures r.Ok? && user in old(defaults) && old(defaults)[user] == id ==> defaults == old(defaults) - {user}
      ensures r.Ok? && !(user in old(defaults) && old(defaults)[user] == id) ==> defaults == old(defaults)
      ensures r.Err? ==> records == old(records) && secrets == old(secrets) && defaults == old(defaults)
    {
      var key := (user, id);
      if key !in records {
        return Err(ProfileNotFound);
      }
      records := records - {key};
      secrets := secrets - {key};
      if user in defaults && defaults[user] == id {
        defaults := defaults - {user};
      }
      r := Ok(());
    }
  }
}
