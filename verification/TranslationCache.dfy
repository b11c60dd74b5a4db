/** Preparing a translation, storing its result and finding it again. */
module TranslationCache {
  import opened Options
  import opened Text
  import S = TranslationSettings
  import G = Segmentation

  const MAX_TRANSLATED_BYTES: nat := 4194304
  const MAX_TRANSLATED_CHARACTERS: nat := 16000

  datatype CacheError =
    | LanguageInvalid | MessageNotFound | ProfileNotFound | ProfileNotReady | BodyTooLarge | BodyEmpty
    | ResultTooLarge | ResultInvalid | CompletionForbidden | NotOwned

  datatype Result<+T> = Ok(value: T) | Err(error: CacheError)

  datatype Message = Message(text: string, html: Option<string>)

  datatype Request = Request(profileId: string, source: Option<string>, target: string)

  datatype Key = Key(
    userId: string, messageId: string, bodyHash: string, source: Option<string>, target: string,
    profileId: string, providerRevision: string, segmentVersion: nat)

  /** The primary key of a cache row: an unknown source language is stored as the empty string. */
  datatype Row = Row(
    userId: string, messageId: string, bodyHash: string, source: string, target: string,
    profileId: string, providerRevision: string, segmentVersion: nat)

  datatype Translated = Translated(id: string, text: string)

  datatype Artifact = Artifact(key: Key, segments: seq<Translated>, createdAt: string, updatedAt: string)

  datatype Stored = Stored(segments: seq<Translated>, createdAt: string, updatedAt: string)

  datatype View = View(document: G.Document, profile: S.Profile, key: Key, cached: Option<Artifact>)

  function RowOf(k: Key): Row {
    Row(k.userId, k.messageId, k.bodyHash, if k.source.Some? then k.source.value else "", k.target,
        k.profileId, k.providerRevision, k.segmentVersion)
  }

  function SourceIds(segments: seq<G.Segment>): seq<string> {
    seq(|segments|, i requires 0 <= i < |segments| => segments[i].id)
  }

  function Ids(segments: seq<Translated>): seq<string> {
    seq(|segments|, i requires 0 <= i < |segments| => segments[i].id)
  }

  function TotalBytes(segments: seq<Translated>): nat
    decreases |segments|
  {
    if segments == [] then 0 else Utf8Len(segments[0].text) + TotalBytes(segments[1..])
  }

  lemma IdsPairwise(segments: seq<G.Segment>, translated: seq<Translated>)
    ensures Ids(translated) == SourceIds(segments) <==>
      |translated| == |segments| && forall i :: 0 <= i < |translated| ==> translated[i].id == segments[i].id
  {
    if Ids(translated) == SourceIds(segments) {
      assert |translated| == |Ids(translated)| == |segments|;
      forall i | 0 <= i < |translated|
        ensures translated[i].id == segments[i].id
      {
        assert Ids(translated)[i] == SourceIds(segments)[i];
      }
    }
  }

  predicate Small(translated: seq<Translated>) {
    TotalBytes(translated) <= MAX_TRANSLATED_BYTES
    && forall t :: t in translated ==> |t.text| <= MAX_TRANSLATED_CHARACTERS
  }

  /** Small enough, one translation per identifier in the given order, and none of them blank. */
  predicate Accepts(ids: seq<string>, translated: seq<Translated>) {
    Small(translated) && Ids(translated) == ids && forall t :: t in translated ==> Trim(t.text) != ""
  }

  /** `validate_translated_segments`. */
  function Validate(document: G.Document, translated: seq<Translated>): (r: Option<CacheError>)
    ensures r.None? <==> Accepts(SourceIds(document.segments), translated)
    ensures r == Some(ResultTooLarge) <==> !Small(translated)
  {
    IdsPairwise(document.segments, translated);
    if TotalBytes(translated) > MAX_TRANSLATED_BYTES
       || exists i :: 0 <= i < |translated| && |translated[i].text| > MAX_TRANSLATED_CHARACTERS
    then Some(ResultTooLarge)
    else if |translated| != |document.segments|
       || exists i :: 0 <= i < |translated| && (translated[i].id != document.segments[i].id || Trim(translated[i].text) == "")
    then Some(ResultInvalid)
    else None
  }

  ghost predicate Injective(digest: string -> string) {
    forall s, t :: digest(s) == digest(t) ==> s == t
  }

  /** The segments the program cuts visible text into, for each version of its segmentation. */
  type Segmenter = (nat, string) -> seq<G.Segment>

  ghost predicate Known(segmenter: Segmenter, digest: string -> string) {
    forall visible :: segmenter(G.SEGMENT_VERSION, visible) == G.SegmentsOf(digest, visible)
  }

  /** The identifiers are those that this version gives the one text that has this hash. */
  ghost predicate IdsOfHash(digest: string -> string, segmenter: Segmenter, version: nat, bodyHash: string, ids: seq<string>) {
    exists visible :: digest(visible) == bodyHash && ids == SourceIds(segmenter(version, visible))
  }

  lemma HashFixesIds(digest: string -> string, segmenter: Segmenter, version: nat, bodyHash: string,
                     ids: seq<string>, ids': seq<string>)
    requires Injective(digest)
    requires IdsOfHash(digest, segmenter, version, bodyHash, ids) && IdsOfHash(digest, segmenter, version, bodyHash, ids')
    ensures ids == ids'
  {
  }

  predicate LanguagesValid(request: Request) {
    (request.source.Some? ==> S.ValidLanguage(request.source.value)) && S.ValidLanguage(request.target)
  }

  /** On languages that pass validation the two unknown-source encodings do not collide. */
  lemma RowsFaithful(k: Key, k': Key)
    requires RowOf(k) == RowOf(k')
    requires k.source.Some? ==> S.ValidLanguage(k.source.value)
    requires k'.source.Some? ==> S.ValidLanguage(k'.source.value)
    ensures k == k'
  {
    assert Utf8Len("") == 0;
  }

  class TranslationService {
    const env: G.Env
    const settings: S.SettingsService
    const segmenter: Segmenter
    /** The segmentation of the release that is running. */
    var version: nat
    var messages: map<(string, string), Message>
    var cache: map<Row, Stored>
    ghost var issued: set<View>

    /** Every row, and every preparation handed out, carries the identifiers its version and body hash stand for. */
    ghost predicate Coherent()
      reads this
    {
      && Injective(env.digest) && Known(segmenter, env.digest)
      && (forall row :: row in cache ==>
            IdsOfHash(env.digest, segmenter, row.segmentVersion, row.bodyHash, Ids(cache[row].segments)))
      && (forall v :: v in issued ==>
            IdsOfHash(env.digest, segmenter, v.key.segmentVersion, v.key.bodyHash, SourceIds(v.document.segments)))
    }

    constructor (env: G.Env, settings: S.SettingsService, segmenter: Segmenter)
      requires Injective(env.digest) && Known(segmenter, env.digest)
      ensures Coherent() && this.env == env && this.settings == settings && this.segmenter == segmenter
      ensures version == G.SEGMENT_VERSION && messages == map[] && cache == map[] && issued == {}
    {
      this.env, this.settings, this.segmenter, version := env, settings, segmenter, G.SEGMENT_VERSION;
      messages, cache, issued := map[], map[], {};
    }

    /** Another release takes over the stored translations as they are. */
    method Upgrade(next: nat)
      requires Coherent()
      modifies this`version
      ensures Coherent() && version == next
    {
      version := next;
    }

    predicate Caching(user: string)
      reads this, settings
    {
      user in settings.preferences ==> settings.preferences[user].cacheTranslations
    }

    /** The text of a stored message that is up for translation. */
    function Translatable(user: string, messageId: string): string
      requires (user, messageId) in messages
      reads this
    {
      var m := messages[(user, messageId)];
      G.VisibleText(env, G.Source(env, m.text, m.html))
    }

    /** Its segments under the running release. */
    function Segmented(user: string, messageId: string): seq<G.Segment>
      requires (user, messageId) in messages
      reads this
    {
      segmenter(version, Translatable(user, messageId))
    }

    /** The body is within the limit. */
    predicate SmallEnough(user: string, messageId: string)
      requires (user, messageId) in messages
      reads this
    {
      var m := messages[(user, messageId)];
      Utf8Len(G.Source(env, m.text, m.html)) <= G.MAX_BODY_BYTES
    }

    /** All that preparing a translation asks for. */
    ghost predicate Preparable(user: string, messageId: string, request: Request)
      reads this, settings
    {
      && LanguagesValid(request) && settings.Usable(user, request.profileId)
      && (user, messageId) in messages && SmallEnough(user, messageId) && Segmented(user, messageId) != []
    }

    method Gate(user: string, profileId: string) returns (r: Result<S.Profile>)
      requires settings.Valid()
      ensures r.Ok? <==> settings.Usable(user, profileId)
      ensures r.Ok? ==> r.value == settings.records[(user, profileId)].profile && r.value.id == profileId
    {
      var key := (user, profileId);
      if key !in settings.records {
        return Err(ProfileNotFound);
      }
      var record := settings.records[key];
      settings.ReadyIsUsable(user, profileId);
      r := if S.Ready(record) then Ok(record.profile) else Err(ProfileNotReady);
    }

    /** `segment_message_body` of the running release; this is the first version of it. */
    method Cut(user: string, messageId: string) returns (r: Option<G.Document>)
      requires Coherent() && (user, messageId) in messages
      ensures r.Some? <==> SmallEnough(user, messageId)
      ensures r.Some? ==>
        && r.value.segments == Segmented(user, messageId) && r.value.segmentVersion == version
        && r.value.bodyHash == env.digest(Translatable(user, messageId))
    {
      var m := messages[(user, messageId)];
      r := G.SegmentMessageBody(env, messageId, m.text, m.html);
      if r.Some? && version != G.SEGMENT_VERSION {
        r := Some(r.value.(segments := Segmented(user, messageId), segmentVersion := version));
      }
    }

    /** The checks of a preparation, up to a document with something to translate. */
    method Document(user: string, messageId: string, request: Request) returns (r: Result<(S.Profile, G.Document)>)
      requires Coherent() && settings.Valid()
      ensures r.Ok? <==> Preparable(user, messageId, request)
      ensures r.Ok? ==>
        var (profile, document) := r.value;
        && profile == settings.records[(user, request.profileId)].profile && profile.id == request.profileId
        && document.segments == Segmented(user, messageId) && document.segmentVersion == version
        && document.bodyHash == env.digest(Translatable(user, messageId))
    {
      if !LanguagesValid(request) {
        return Err(LanguageInvalid);
      }
      if (user, messageId) !in messages {
        return Err(MessageNotFound);
      }
      var profile := Gate(user, request.profileId);
      if profile.Err? {
        return Err(profile.error);
      }
      var segmented := Cut(user, messageId);
      if segmented.None? {
        return Err(BodyTooLarge);
      }
      if segmented.value.segments == [] {
        return Err(BodyEmpty);
      }
      r := Ok((profile.value, segmented.value));
    }

    method Cached(key: Key, document: G.Document) returns (cached: Option<Artifact>)
      requires Coherent()
      requires IdsOfHash(env.digest, segmenter, key.segmentVersion, key.bodyHash, SourceIds(document.segments))
      ensures cached.Some? <==> Caching(key.userId) && RowOf(key) in cache
      ensures cached.Some? ==>
        && cached.value.key == key
        && cached.value.segments == cache[RowOf(key)].segments
        && Ids(cached.value.segments) == SourceIds(document.segments)
    {
      if !Caching(key.userId) || RowOf(key) !in cache {
        return None;
      }
      var stored := cache[RowOf(key)];
      HashFixesIds(env.digest, segmenter, key.segmentVersion, key.bodyHash, Ids(stored.segments), SourceIds(document.segments));
      cached := Some(Artifact(key, stored.segments, stored.createdAt, stored.updatedAt));
    }

    /**
    Succeeds exactly for a usable profile and a message of acceptable size with something to translate, and any
    cached artifact it returns has exactly the identifiers of the freshly segmented document, in order.
    */
    method Prepare(user: string, messageId: string, request: Request) returns (r: Result<View>)
      requires Coherent() && settings.Valid()
      modifies this`issued
      ensures Coherent() && old(issued) <= issued
      ensures r.Ok? <==> Preparable(user, messageId, request)
      ensures r.Ok? ==> r.value in issued
      ensures r.Ok? ==> r.value.profile == settings.records[(user, request.profileId)].profile
      ensures r.Ok? ==>
        && (user, messageId) in messages
        && r.value.document.segments == Segmented(user, messageId) != []
        && r.value.document.bodyHash == env.digest(Translatable(user, messageId))
      ensures r.Ok? ==>
        var d := S.DescriptorOf(r.value.profile.provider.Kind());
        r.value.key == Key(user, messageId, r.value.document.bodyHash, request.source, request.target,
                           request.profileId, d.providerRevision, version)
      ensures r.Ok? ==> (r.value.cached.Some? <==> Caching(user) && RowOf(r.value.key) in cache)
      ensures r.Ok? && r.value.cached.Some? ==>
        && r.value.cached.value.key == r.value.key
        && r.value.cached.value.segments == cache[RowOf(r.value.key)].segments
        && Ids(r.value.cached.value.segments) == SourceIds(r.value.document.segments)
    {
      var gated := Document(user, messageId, request);
      if gated.Err? {
        return Err(gated.error);
      }
      var (profile, document) := gated.value;
      var key := Key(user, messageId, document.bodyHash, request.source, request.target, profile.id,
                     S.DescriptorOf(profile.provider.Kind()).providerRevision, document.segmentVersion);
      assert IdsOfHash(env.digest, segmenter, version, key.bodyHash, SourceIds(document.segments));
      var cached := Cached(key, document);
      var view := View(document, profile, key, cached);
      issued := issued + {view};
      r := Ok(view);
    }

    /** Stores only complete results for a preparation handed out before, however long ago. */
    method StoreArtifact(preparation: View, segments: seq<Translated>, createdAt: string, updatedAt: string)
      returns (r: Result<Artifact>)
      requires Coherent() && preparation in issued
      modifies this`cache
      ensures Coherent()
      ensures var user := preparation.key.userId;
        r.Ok? <==>
          && Validate(preparation.document, segments).None?
          && (Caching(user) ==> (user, preparation.key.messageId) in messages)
      ensures r.Ok? ==> r.value == Artifact(preparation.key, segments, createdAt, updatedAt)
      ensures r.Ok? && Caching(preparation.key.userId) ==>
        var row := RowOf(preparation.key);
        cache == old(cache)[row := Stored(segments, if row in old(cache) then old(cache)[row].createdAt else createdAt, updatedAt)]
      ensures !(r.Ok? && Caching(preparation.key.userId)) ==> cache == old(cache)
    {
      var invalid := Validate(preparation.document, segments);
      if invalid.Some? {
        return Err(invalid.value);
      }
      var key := preparation.key;
      if Caching(key.userId) {
        if (key.userId, key.messageId) !in messages {
          return Err(NotOwned);
        }
        var row := RowOf(key);
        cache := cache[row := Stored(segments, if row in cache then cache[row].createdAt else createdAt, updatedAt)];
      }
      r := Ok(Artifact(key, segments, createdAt, updatedAt));
    }

    /** A client may complete a translation only for the local provider in the web view. */
    method Complete(user: string, messageId: string, request: Request, segments: seq<Translated>, createdAt: string)
      returns (r: Result<Artifact>)
      requires Coherent() && settings.Valid()
      modifies this`cache, this`issued
      ensures Coherent()
      ensures r.Ok? <==>
        && Preparable(user, messageId, request)
        && settings.records[(user, request.profileId)].profile.provider.UseEdge?
        && settings.records[(user, request.profileId)].profile.target.WebView?
        && Accepts(SourceIds(Segmented(user, messageId)), segments)
      ensures r.Err? ==> cache == old(cache)
      ensures r.Ok? ==>
        && (user, messageId) in messages
        && r.value.segments == segments
        && Ids(segments) == SourceIds(Segmented(user, messageId))
    {
      var preparation := Prepare(user, messageId, request);
      if preparation.Err? {
        return Err(preparation.error);
      }
      var profile := preparation.value.profile;
      if !profile.target.WebView? || !profile.provider.UseEdge? {
        return Err(CompletionForbidden);
      }
      r := StoreArtifact(preparation.value, segments, createdAt, createdAt);
    }

    method ClearCache(user: string) returns (removed: nat)
      requires Coherent()
      modifies this`cache
      ensures Coherent()
      ensures cache == map row | row in old(cache) && row.userId != user :: old(cache)[row]
      ensures removed == |old(cache)| - |cache|
    {
      var kept := map row | row in cache && row.userId != user :: cache[row];
      SmallerDomain(kept, cache);
      removed := |cache| - |kept|;
      cache := kept;
    }

    /** Messages come and go; deleting one deletes its rows. */
    method ReplaceMessage(user: string, messageId: string, message: Option<Message>)
      requires Coherent()
      modifies this`messages, this`cache
      ensures Coherent()
      ensures message.Some? ==> messages == old(messages)[(user, messageId) := message.value] && cache == old(cache)
      ensures message.None? ==> messages == old(messages) - {(user, messageId)}
      ensures message.None? ==> cache == map row | row in old(cache) && row.messageId != messageId :: old(cache)[row]
    {
      if message.Some? {
        messages := messages[(user, messageId) := message.value];
      } else {
        messages := messages - {(user, messageId)};
        cache := map row | row in cache && row.messageId != messageId :: cache[row];
      }
    }
  }

  lemma SmallerDomain<K, V>(a: map<K, V>, b: map<K, V>)
    requires a.Keys <= b.Keys
    ensures |a| <= |b|
  {
    var rest := b.Keys - a.Keys;
    assert b.Keys == a.Keys + rest;
    assert |b.Keys| == |a.Keys| + |rest|;
  }
}
