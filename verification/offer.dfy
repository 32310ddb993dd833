/**
 * Building local offers (`createOffer`, `createFirstOffer`,
 * `createUpdateOffer`, `createMediaDescriptions`): one media line per media
 * type whose device is present and not inactive once narrowed by the user's
 * preference and by the hold state.
 */
module OfferGeneration {
  import opened Wrappers
  import opened MediaDirection
  import opened Media
  import opened Session

  /**
   * The direction offered for `t` with device `dev`: the device direction
   * narrowed by the user preference and, while on hold, by SENDONLY.
   */
  function OfferDirection(env: Env, dev: Device, t: MediaType): (d: Direction)
    ensures d.AtMost(dev.direction) && d.AtMost(env.preference(t))
    ensures env.onHold ==> d.AtMost(SendOnly)
    ensures !env.onHold ==> d == dev.direction.And(env.preference(t))
    ensures forall e: Direction ::
              e.AtMost(dev.direction) && e.AtMost(env.preference(t)) && (env.onHold ==> e.AtMost(SendOnly)) ==> e.AtMost(d)
  {
    var direction := dev.direction.And(env.preference(t));
    if env.onHold then direction.And(SendOnly) else direction
  }

  /** `t` contributes a line to an offer. */
  predicate Offers(env: Env, t: MediaType) {
    env.device(t).Some? && OfferDirection(env, env.device(t).value, t) != Inactive
  }

  /** The types of `types` that contribute a line, in their order. */
  function OfferedTypes(env: Env, types: seq<MediaType>): (r: seq<MediaType>)
    ensures |r| <= |types|
    ensures forall t :: t in r <==> t in types && Offers(env, t)
  {
    if |types| == 0 then []
    else
      var last := types[|types| - 1];
      OfferedTypes(env, types[..|types| - 1]) + (if Offers(env, last) then [last] else [])
  }

  /** The `zrtp-hash` attribute of a control: its hello hash when that is non-empty. */
  function ZrtpHashOf(env: Env, control: ZrtpControl): (r: Option<string>)
    ensures r.Some? ==> |r.value| > 0 && env.helloHash(control) == r
    ensures env.helloHash(control).Some? && |env.helloHash(control).value| > 0 ==> r == env.helloHash(control)
  {
    match env.helloHash(control)
    case None => None
    case Some(hash) => if |hash| > 0 then Some(hash) else None
  }

  /**
   * `d` is the line offered for `t` once the ZRTP cache is `controls`: the
   * device's formats and extensions, the offer direction, and, when the call
   * uses the ZRTP attribute, the hash of the control cached for `t`.
   */
  predicate DescribesOffer(env: Env, t: MediaType, controls: map<MediaType, ZrtpControl>, d: MediaDescription) {
    && env.device(t).Some?
    && (env.zrtpAttribute ==> t in controls)
    && var dev := env.device(t).value;
       d == Active(t, dev.formats, OfferDirection(env, dev, t), dev.extensions,
                   if env.zrtpAttribute && t in controls then ZrtpHashOf(env, controls[t]) else None)
  }

  /**
   * How the ZRTP cache may grow from `before` (with `created` controls made
   * so far) to `after` (with `created'`): cached controls stay, each new
   * entry is a control created in between, no two new entries share a
   * control, and no control is created without a new entry.
   */
  predicate CacheGrows(before: map<MediaType, ZrtpControl>, created: nat, after: map<MediaType, ZrtpControl>, created': nat) {
    && created <= created'
    && (forall t :: t in before ==> t in after && after[t] == before[t])
    && (forall t :: t in after && t !in before ==> created <= after[t].handle < created')
    && (forall t, u :: t in after && u in after && t !in before && u !in before && t != u ==> after[t] != after[u])
    && ((forall t :: t in after ==> t in before) ==> created' == created)
  }

  lemma CacheGrowsTransitive(c0: map<MediaType, ZrtpControl>, n0: nat, c1: map<MediaType, ZrtpControl>, n1: nat,
                             c2: map<MediaType, ZrtpControl>, n2: nat)
    requires CacheGrows(c0, n0, c1, n1) && CacheGrows(c1, n1, c2, n2)
    ensures CacheGrows(c0, n0, c2, n2)
  {
    forall t, u | t in c2 && u in c2 && t !in c0 && u !in c0 && t != u
      ensures c2[t] != c2[u]
    {
      if t in c1 && u !in c1 {
        assert c2[t].handle < n1 <= c2[u].handle;
      } else if t !in c1 && u in c1 {
        assert c2[u].handle < n1 <= c2[t].handle;
      }
    }
    if forall t :: t in c2 ==> t in c0 {
      assert forall t :: t in c1 ==> t in c0;
      assert forall t :: t in c2 ==> t in c1;
    }
  }

  /** A line described against a cache stays described against any growth of it. */
  lemma DescribesOfferUnderGrowth(env: Env, t: MediaType, c1: map<MediaType, ZrtpControl>, n1: nat,
                                  c2: map<MediaType, ZrtpControl>, n2: nat, d: MediaDescription)
    requires DescribesOffer(env, t, c1, d) && CacheGrows(c1, n1, c2, n2)
    ensures DescribesOffer(env, t, c2, d)
  {
  }

  /** The lines built so far, the ZRTP cache as it stands, and how many controls were created. */
  datatype OfferFold = OfferFold(media: seq<MediaDescription>, controls: map<MediaType, ZrtpControl>, created: nat)

  /** One iteration of the loop of `createMediaDescriptions`, for media type `t`. */
  function OfferLine(env: Env, t: MediaType, controls: map<MediaType, ZrtpControl>, created: nat): (r: OfferFold)
    ensures Offers(env, t) ==> |r.media| == 1 && DescribesOffer(env, t, r.controls, r.media[0])
    ensures !Offers(env, t) ==> r.media == [] && r.controls == controls && r.created == created
    ensures CacheGrows(controls, created, r.controls, r.created)
    ensures forall u :: u in r.controls <==> u in controls || (env.zrtpAttribute && u == t && Offers(env, t))
  {
    match env.device(t)
    case None => OfferFold([], controls, created)
    case Some(dev) =>
      var direction := OfferDirection(env, dev, t);
      if direction == Inactive then OfferFold([], controls, created)
      else if env.zrtpAttribute then
        // the media service creates a new control on first use only, and it is cached
        var controls' := if t in controls then controls else controls[t := ZrtpControl(created)];
        var created' := if t in controls then created else created + 1;
        var hash := ZrtpHashOf(env, controls'[t]);
        OfferFold([Active(t, dev.formats, direction, dev.extensions, hash)], controls', created')
      else
        OfferFold([Active(t, dev.formats, direction, dev.extensions, None)], controls, created)
  }

  /**
   * The loop of `createMediaDescriptions` over `types`: one line per
   * contributing type, in order, each described against the cache the loop
   * leaves; the cache gains a fresh control for each contributing type that
   * lacks one when the call uses the ZRTP attribute, and nothing else.
   */
  function OfferLines(env: Env, types: seq<MediaType>, controls: map<MediaType, ZrtpControl>, created: nat): (r: OfferFold)
    ensures |r.media| == |OfferedTypes(env, types)|
    ensures forall i :: 0 <= i < |r.media| ==> DescribesOffer(env, OfferedTypes(env, types)[i], r.controls, r.media[i])
    ensures CacheGrows(controls, created, r.controls, r.created)
    ensures forall t :: t in r.controls <==> t in controls || (env.zrtpAttribute && t in types && Offers(env, t))
  {
    if |types| == 0 then OfferFold([], controls, created)
    else
      var prefix := types[..|types| - 1];
      var last := types[|types| - 1];
      var before := OfferLines(env, prefix, controls, created);
      var step := OfferLine(env, last, before.controls, before.created);
      var offered := OfferedTypes(env, types);
      var media := before.media + step.media;
      assert offered == OfferedTypes(env, prefix) + (if Offers(env, last) then [last] else []);
      assert forall t :: t in types <==> t in prefix || t == last;
      assert forall i :: 0 <= i < |media| ==> DescribesOffer(env, offered[i], step.controls, media[i]) by {
        forall i | 0 <= i < |media|
          ensures DescribesOffer(env, offered[i], step.controls, media[i])
        {
          if i < |before.media| {
            assert media[i] == before.media[i];
            assert offered[i] == OfferedTypes(env, prefix)[i];
            DescribesOfferUnderGrowth(env, offered[i], before.controls, before.created, step.controls, step.created,
                                      media[i]);
          } else {
            assert offered[i] == last && media[i] == step.media[0];
          }
        }
      }
      CacheGrowsTransitive(controls, created, before.controls, before.created, step.controls, step.created);
      OfferFold(media, step.controls, step.created)
  }

  /** The offered types follow the enumeration order of the media types. */
  lemma OfferedTypesInEnumerationOrder(env: Env)
    ensures OfferedTypes(env, MediaTypes)
            == (if Offers(env, Audio) then [Audio] else []) + (if Offers(env, Video) then [Video] else [])
  {
    assert MediaTypes[..1] == [Audio];
    assert MediaTypes[..1][..0] == [];
  }

  /**
   * `createMediaDescriptions`: the lines of an offer, one per contributing
   * type in enumeration order, each at most SENDONLY while on hold; fails
   * with GENERAL_ERROR, leaving the handler as it was, when no type contributes.
   */
  function CreateMediaDescriptions(env: Env, h: Handler): (s: Step<seq<MediaDescription>>)
    ensures s.result.Err? <==> forall t :: !Offers(env, t)
    ensures s.result.Err? ==> s.result.error == GeneralError && s.handler == h
    ensures s.result.Ok? ==>
              && |s.result.value| == |OfferedTypes(env, MediaTypes)|
              && forall i :: 0 <= i < |s.result.value| ==>
                   DescribesOffer(env, OfferedTypes(env, MediaTypes)[i], s.handler.zrtpControls, s.result.value[i])
    ensures s.result.Ok? && env.onHold ==>
              forall d :: d in s.result.value ==> d.Active? && d.direction.AtMost(SendOnly)
    ensures s.handler == h.(zrtpControls := s.handler.zrtpControls, zrtpCreated := s.handler.zrtpCreated)
    ensures CacheGrows(h.zrtpControls, h.zrtpCreated, s.handler.zrtpControls, s.handler.zrtpCreated)
    ensures forall t :: t in s.handler.zrtpControls <==> t in h.zrtpControls || (env.zrtpAttribute && Offers(env, t))
  {
    var fold := OfferLines(env, MediaTypes, h.zrtpControls, h.zrtpCreated);
    EveryTypeIsEnumerated();
    OfferFailsExactlyWhenNothingContributes(env);
    var h' := h.(zrtpControls := fold.controls, zrtpCreated := fold.created);
    HoldNarrowsEveryLine(env, OfferedTypes(env, MediaTypes), fold.controls, fold.media);
    if |fold.media| == 0 then
      assert forall t :: t in fold.controls ==> t in h.zrtpControls;
      assert fold.controls == h.zrtpControls;
      Step(h', Err(GeneralError))
    else
      Step(h', Ok(fold.media))
  }

  /** While on hold, every offered line is at most SENDONLY. */
  lemma HoldNarrowsEveryLine(env: Env, types: seq<MediaType>, controls: map<MediaType, ZrtpControl>,
                             media: seq<MediaDescription>)
    requires |media| == |types|
    requires forall i :: 0 <= i < |media| ==> DescribesOffer(env, types[i], controls, media[i])
    ensures env.onHold ==> forall d :: d in media ==> d.Active? && d.direction.AtMost(SendOnly)
  {
    forall d | d in media
      ensures d.Active? && (env.onHold ==> d.direction.AtMost(SendOnly))
    {
      var i :| 0 <= i < |media| && media[i] == d;
      assert DescribesOffer(env, types[i], controls, d);
    }
  }

  lemma EveryTypeIsEnumerated()
    ensures forall t :: t in MediaTypes
  {
    forall t ensures t in MediaTypes {
      assert t == MediaTypes[0] || t == MediaTypes[1];
    }
  }

  /** An offer has no line exactly when no media type contributes one. */
  lemma OfferFailsExactlyWhenNothingContributes(env: Env)
    ensures |OfferedTypes(env, MediaTypes)| == 0 <==> forall t :: !Offers(env, t)
  {
    EveryTypeIsEnumerated();
    if |OfferedTypes(env, MediaTypes)| != 0 {
      assert Offers(env, OfferedTypes(env, MediaTypes)[0]);
    }
  }

  /** `createFirstOffer`: a fresh description, stored as the local one. */
  function CreateFirstOffer(env: Env, h: Handler): (s: Step<SessionDescription>)
    ensures s.result.Ok? ==> s.result.value.Fresh? && s.handler.localSess == Some(s.result.value)
  {
    var built := CreateMediaDescriptions(env, h);
    match built.result
    case Err(e) => Step(built.handler, Err(e))
    case Ok(media) =>
      var sdes := Fresh(media);
      Step(built.handler.(localSess := Some(sdes)), Ok(sdes))
  }

  /** `createUpdateOffer`: an update of `previous`, stored as the local description. */
  function CreateUpdateOffer(env: Env, h: Handler, previous: SessionDescription): (s: Step<SessionDescription>)
    ensures s.result.Ok? ==>
              s.result.value.Update? && s.result.value.previous == previous && s.handler.localSess == Some(s.result.value)
  {
    var built := CreateMediaDescriptions(env, h);
    match built.result
    case Err(e) => Step(built.handler, Err(e))
    case Ok(media) =>
      var newOffer := Update(previous, media);
      Step(built.handler.(localSess := Some(newOffer)), Ok(newOffer))
  }

  /**
   * `createOffer`: a fresh description before any local one exists, an
   * update of the current local description afterwards; on success it
   * becomes the local description, on failure (GENERAL_ERROR, when no media
   * type contributes) the handler is left unchanged.
   */
  function CreateOffer(env: Env, h: Handler): (s: Step<SessionDescription>)
    ensures s.result.Err? <==> forall t :: !Offers(env, t)
    ensures s.result.Err? ==> s.result.error == GeneralError && s.handler == h
    ensures s.result.Ok? ==> s.handler.localSess == Some(s.result.value)
    ensures s.result.Ok? && h.localSess.None? ==> s.result.value.Fresh?
    ensures s.result.Ok? && h.localSess.Some? ==>
              s.result.value.Update? && s.result.value.previous == h.localSess.value
    ensures s.result.Ok? ==>
              var media := s.result.value.media;
              && |media| == |OfferedTypes(env, MediaTypes)|
              && forall i :: 0 <= i < |media| ==>
                   DescribesOffer(env, OfferedTypes(env, MediaTypes)[i], s.handler.zrtpControls, media[i])
    ensures s.result.Ok? && env.onHold ==>
              forall d :: d in s.result.value.media ==> d.Active? && d.direction.AtMost(SendOnly)
    ensures CacheGrows(h.zrtpControls, h.zrtpCreated, s.handler.zrtpControls, s.handler.zrtpCreated)
    ensures forall t :: t in s.handler.zrtpControls <==> t in h.zrtpControls || (env.zrtpAttribute && Offers(env, t))
    ensures s.handler.remoteSess == h.remoteSess && s.handler.callInfoURL == h.callInfoURL
    ensures s.handler.streams == h.streams
    ensures h.localSess.Some? ==> s.handler.localSess.Some?
  {
    if h.localSess.None? then CreateFirstOffer(env, h)
    else CreateUpdateOffer(env, h, h.localSess.value)
  }

  /**
   * Building the media lines again after a successful build, with nothing
   * else changed, gives the same lines, hashes included, and creates no
   * control: every offered type already has its cached one.
   */
  lemma RebuildingMediaIsStable(env: Env, h: Handler)
    requires CreateMediaDescriptions(env, h).result.Ok?
    ensures var first := CreateMediaDescriptions(env, h);
            var second := CreateMediaDescriptions(env, first.handler);
            && second.result == first.result
            && second.handler == first.handler
  {
    var built1 := CreateMediaDescriptions(env, h);
    var built2 := CreateMediaDescriptions(env, built1.handler);
    var c1 := built1.handler.zrtpControls;
    var c2 := built2.handler.zrtpControls;
    assert c2 == c1 by {
      assert forall t :: t in c2 <==> t in c1;
      assert forall t :: t in c1 ==> c2[t] == c1[t];
    }
    assert built2.handler.zrtpCreated == built1.handler.zrtpCreated;
    var offered := OfferedTypes(env, MediaTypes);
    var m1 := built1.result.value;
    var m2 := built2.result.value;
    assert m2 == m1 by {
      forall i | 0 <= i < |m2|
        ensures m2[i] == m1[i]
      {
        assert DescribesOffer(env, offered[i], c1, m1[i]);
        assert DescribesOffer(env, offered[i], c1, m2[i]);
      }
    }
  }

  /**
   * Offering twice with nothing changed in between yields the same media
   * lines, the second time as an update of the first offer, and reuses the
   * ZRTP controls the first offer cached without creating any.
   */
  lemma CreateOfferIsIdempotent(env: Env, h: Handler)
    requires CreateOffer(env, h).result.Ok?
    ensures var first := CreateOffer(env, h);
            var second := CreateOffer(env, first.handler);
            && second.result.Ok?
            && second.result.value == Update(first.result.value, first.result.value.media)
            && second.handler.zrtpControls == first.handler.zrtpControls
            && second.handler.zrtpCreated == first.handler.zrtpCreated
  {
    var first := CreateOffer(env, h);
    RebuildingMediaIsStable(env, h);
    var built := CreateMediaDescriptions(env, h);
    assert first.handler == built.handler.(localSess := Some(first.result.value));
    var second := CreateOffer(env, first.handler);
    assert second == CreateUpdateOffer(env, first.handler, first.result.value);
  }

  /**
   * The cached ZRTP controls are pairwise distinct and were all created
   * before the handler's creation count.
   */
  predicate ControlsDistinct(h: Handler) {
    && (forall t :: t in h.zrtpControls ==> h.zrtpControls[t].handle < h.zrtpCreated)
    && (forall t, u :: t in h.zrtpControls && u in h.zrtpControls && t != u ==> h.zrtpControls[t] != h.zrtpControls[u])
  }

  /** Offering keeps the cached controls distinct: a new control is never one already cached. */
  lemma {:induction false} OfferKeepsControlsDistinct(env: Env, h: Handler)
    requires ControlsDistinct(h)
    ensures ControlsDistinct(CreateOffer(env, h).handler)
  {
    var h' := CreateOffer(env, h).handler;
    var c0, c1 := h.zrtpControls, h'.zrtpControls;
    forall t, u | t in c1 && u in c1 && t != u
      ensures c1[t] != c1[u]
    {
      if t in c0 && u !in c0 {
        assert c1[t].handle < h.zrtpCreated <= c1[u].handle;
      } else if t !in c0 && u in c0 {
        assert c1[u].handle < h.zrtpCreated <= c1[t].handle;
      }
    }
  }
}
