/** The compose-window registry of `src/content/utils/draftManager.ts`: a `Map`
    from compose-window id to its info, mirrored into storage under
    `compose_<id>_draft` once a draft is known, with read-through caching, a
    removal that drops both, a listing in insertion order, and a cleanup that
    deletes stale mirror keys.

    Fresh ids, the clock, the reply of the background worker and the order in
    which storage lists its entries are parameters. Compose elements are
    identities with the two attributes the classification reads; the
    `data-email-magic-compose-id` attribute is the `tags` map. */
module Drafts {
  import opened Wrappers
  import opened Text
  import opened Storage

  type ElementId = nat

  datatype DraftInfo = DraftInfo(draftId: string, order: int, timestamp: int, composeWindowId: string)

  /** `ComposeWindowInfo`. `draftInfo` holds whatever was stored: a value read
      back from storage is cached as it is, whatever its shape. */
  datatype ComposeWindowInfo = ComposeWindowInfo(
    id: string, element: ElementId, draftInfo: Option<Value>, isReply: bool, isForward: bool)

  /** What the classification reads from a compose element: its `aria-label`
      attribute and the value of its subject input (`None` when absent). */
  datatype ComposeElement = ComposeElement(id: ElementId, ariaLabel: Option<string>, subjectValue: Option<string>)

  // ---------------------------------------------------------------- classification

  /** `x || ''` for an attribute or input value. */
  function OrEmpty(s: Option<string>): (r: string)
    ensures s.Some? ==> r == s.value
    ensures s.None? ==> r == ""
  {
    if s.Some? then s.value else ""
  }

  predicate IsReplyCompose(e: ComposeElement) {
    Contains(OrEmpty(e.ariaLabel), "Reply") || Contains(OrEmpty(e.subjectValue), "Re:")
  }

  predicate IsForwardCompose(e: ComposeElement) {
    Contains(OrEmpty(e.ariaLabel), "Forward") || Contains(OrEmpty(e.subjectValue), "Fwd:")
  }

  /** Reply iff the label contains `Reply` or the subject contains `Re:`; forward
      iff the label contains `Forward` or the subject contains `Fwd:`; an absent
      attribute or input counts as empty text. */
  lemma ClassificationRules(e: ComposeElement)
    ensures IsReplyCompose(e) <==>
      (e.ariaLabel.Some? && exists i :: OccursAt(e.ariaLabel.value, "Reply", i))
      || (e.subjectValue.Some? && exists i :: OccursAt(e.subjectValue.value, "Re:", i))
    ensures IsForwardCompose(e) <==>
      (e.ariaLabel.Some? && exists i :: OccursAt(e.ariaLabel.value, "Forward", i))
      || (e.subjectValue.Some? && exists i :: OccursAt(e.subjectValue.value, "Fwd:", i))
    ensures e.ariaLabel.None? && e.subjectValue.None? ==> !IsReplyCompose(e) && !IsForwardCompose(e)
  {
    if e.ariaLabel.None? {
      NothingInEmpty("Reply");
      NothingInEmpty("Forward");
    }
    if e.subjectValue.None? {
      NothingInEmpty("Re:");
      NothingInEmpty("Fwd:");
    }
  }

  lemma NothingInEmpty(sub: string)
    requires sub != ""
    ensures !Contains("", sub)
  {
  }

  // ---------------------------------------------------------------- storage mirror

  /** `compose_${id}_draft`. */
  function DraftKey(id: string): string {
    "compose_" + id + "_draft"
  }

  /** The test `cleanupOldDrafts` applies to a storage key. */
  predicate IsDraftKey(k: string) {
    StartsWith(k, "compose_") && EndsWith(k, "_draft")
  }

  /** The cleanup test recognises every mirror key, different ids have different
      keys, and the only other key it accepts is `compose_draft`, where the
      prefix and the suffix overlap. */
  lemma DraftKeyShape(id: string, id2: string, k: string)
    ensures IsDraftKey(DraftKey(id))
    ensures DraftKey(id) == DraftKey(id2) ==> id == id2
    ensures IsDraftKey(k) ==> k == "compose_draft" || (|k| >= 14 && k == DraftKey(k[8..|k| - 6]))
  {
    var d := DraftKey(id);
    assert d[..8] == "compose_";
    assert d[|d| - 6..] == "_draft";
    if DraftKey(id) == DraftKey(id2) {
      assert id == d[8..|d| - 6] == id2;
    }
    if IsDraftKey(k) {
      assert k[|k| - 6] == '_';
      if |k| < 14 {
        assert k[|k| - 6] == k[..8][|k| - 6];
        assert |k| == 13;
        assert k == k[..8] + k[8..];
        assert k[8..] == k[|k| - 6..][1..];
      } else {
        assert k == k[..8] + k[8..|k| - 6] + k[|k| - 6..];
      }
    }
  }

  /** The stored form of a `DraftInfo`. */
  function ToValue(d: DraftInfo): Value {
    Obj(map["draftId" := Str(d.draftId), "order" := Num(d.order),
            "timestamp" := Num(d.timestamp), "composeWindowId" := Str(d.composeWindowId)])
  }

  /** Reading a `DraftInfo` back from a stored value, when it has that shape. */
  function FromValue(v: Value): Option<DraftInfo> {
    match (Field(v, "draftId"), Field(v, "order"), Field(v, "timestamp"), Field(v, "composeWindowId"))
    case (Some(Str(d)), Some(Num(o)), Some(Num(t)), Some(Str(c))) => Some(DraftInfo(d, o, t, c))
    case _ => None
  }

  lemma DraftInfoRoundTrip(d: DraftInfo)
    ensures FromValue(ToValue(d)) == Some(d)
    ensures IsTruthy(Some(ToValue(d)))
  {
  }

  // ---------------------------------------------------------------- the registry

  /** The manager's state: the map, its insertion order, the id tags on compose
      elements, and the storage area. */
  datatype Registry = Registry(
    windows: map<string, ComposeWindowInfo>,
    order: seq<string>,
    tags: map<ElementId, string>,
    storage: Store)

  /** `order` lists the map's keys once each, and every entry records its key. */
  ghost predicate Valid(r: Registry) {
    && (forall k :: k in r.windows <==> k in r.order)
    && Distinct(r.order)
    && (forall k :: k in r.windows ==> r.windows[k].id == k)
  }

  /** `order` with `id` taken out. */
  function Without(s: seq<string>, id: string): (r: seq<string>)
    ensures forall x :: x in r <==> x in s && x != id
    ensures Distinct(s) ==> Distinct(r)
  {
    if s == [] then []
    else if s[0] == id then Without(s[1..], id)
    else
      var w := Without(s[1..], id);
      assert Distinct(s) ==> s[0] !in w by {
        if Distinct(s) {
          forall j | 0 <= j < |s| - 1 ensures s[1..][j] != s[0] {
            assert s[1..][j] == s[j + 1];
          }
        }
      }
      [s[0]] + w
  }

  function Lookup(r: Registry, id: string): Option<ComposeWindowInfo> {
    if id in r.windows then Some(r.windows[id]) else None
  }

  /** `registerComposeWindow` with id `id` from the generator. `Map.set` on a key
      already present replaces the entry and keeps its position. */
  function Register(r: Registry, e: ComposeElement, id: string): Registry {
    var info := ComposeWindowInfo(id, e.id, None, IsReplyCompose(e), IsForwardCompose(e));
    r.(windows := r.windows[id := info],
       order := if id in r.windows then r.order else r.order + [id],
       tags := r.tags[e.id := id])
  }

  /** `getComposeWindowByElement`: an absent or empty tag finds nothing. */
  function LookupByElement(r: Registry, element: ElementId): Option<ComposeWindowInfo> {
    if element in r.tags && r.tags[element] != "" then Lookup(r, r.tags[element]) else None
  }

  /** `updateDraftInfo`. */
  function UpdateDraft(r: Registry, id: string, d: DraftInfo): Registry {
    if id in r.windows then
      r.(windows := r.windows[id := r.windows[id].(draftInfo := Some(ToValue(d)))],
         storage := r.storage[DraftKey(id) := ToValue(d)])
    else r
  }

  /** `getDraftInfo`: the cached value when truthy; else, unless reading storage
      fails, the stored value when truthy, cached only for a registered window;
      else nothing. */
  function GetDraft(r: Registry, id: string, readFails: bool): (Registry, Option<Value>) {
    if id in r.windows && IsTruthy(r.windows[id].draftInfo) then (r, r.windows[id].draftInfo)
    else if readFails then (r, None)
    else
      var stored := Get(r.storage, DraftKey(id));
      if !IsTruthy(stored) then (r, None)
      else if id in r.windows then
        (r.(windows := r.windows[id := r.windows[id].(draftInfo := stored)]), stored)
      else (r, stored)
  }

  /** The reply to `WAIT_FOR_DRAFT_SAVE`; `None` when no reply arrived. */
  datatype DraftResponse = DraftResponse(success: bool, draftId: string, order: int, error: Option<string>)

  /** `waitForDraftSave`: on success a `DraftInfo` stamped with the current time
      is recorded through `updateDraftInfo` and returned; otherwise the promise
      rejects with the reply's error or a fixed message. */
  function WaitForDraft(r: Registry, id: string, response: Option<DraftResponse>, now: int)
    : (Registry, Result<DraftInfo, string>)
  {
    if response.Some? && response.value.success then
      var d := DraftInfo(response.value.draftId, response.value.order, now, id);
      (UpdateDraft(r, id, d), Ok(d))
    else
      var msg := if response.Some? && response.value.error.Some? && response.value.error.value != ""
                 then response.value.error.value else "Failed to get draft ID";
      (r, Err(msg))
  }

  /** `removeComposeWindow`. */
  function Remove(r: Registry, id: string): Registry {
    r.(windows := r.windows - {id}, order := Without(r.order, id), storage := r.storage - {DraftKey(id)})
  }

  // ---------------------------------------------------------------- cleanup

  const HourMs: int := 60 * 60 * 1000

  /** JavaScript `ToNumber` of a field read from a stored value, `None` for NaN. */
  function NumberOf(v: Option<Value>): Option<int> {
    match v
    case None => None
    case Some(Null) => Some(0)
    case Some(Bool(b)) => Some(if b then 1 else 0)
    case Some(Num(n)) => Some(n)
    case Some(Str(_)) => None
    case Some(Obj(_)) => None
  }

  /** `draftInfo.timestamp < oneHourAgo` for a non-null stored value. */
  predicate OlderThan(v: Value, cutoff: int) {
    var t := NumberOf(Field(v, "timestamp"));
    t.Some? && t.value < cutoff
  }

  /** Reading `.timestamp` of a stored `null` throws, which aborts the cleanup. */
  predicate Throws(k: string, v: Value) {
    IsDraftKey(k) && v == Null
  }

  predicate IsStale(k: string, v: Value, cutoff: int) {
    IsDraftKey(k) && v != Null && OlderThan(v, cutoff)
  }

  /** The storage area after `cleanupOldDrafts` at time `now`. */
  function Cleanup(store: Store, now: int, readFails: bool): Store {
    if readFails || exists k :: k in store && Throws(k, store[k]) then store
    else map k | k in store && !IsStale(k, store[k], now - HourMs) :: store[k]
  }

  /** Cleanup removes exactly the mirror keys whose timestamp is more than an
      hour old and keeps every other entry as it was; a failed read or a stored
      `null` under a mirror key removes nothing. */
  lemma CleanupExact(store: Store, now: int, readFails: bool)
    ensures forall k :: k in Cleanup(store, now, readFails) ==> k in store && Cleanup(store, now, readFails)[k] == store[k]
    ensures !readFails && (forall k :: k in store ==> !Throws(k, store[k])) ==>
      forall k :: k in store ==> (k !in Cleanup(store, now, readFails) <==> IsStale(k, store[k], now - HourMs))
    ensures readFails || (exists k :: k in store && Throws(k, store[k])) ==> Cleanup(store, now, readFails) == store
  {
  }

  /** A draft recorded by `waitForDraftSave` survives a cleanup within the hour. */
  lemma FreshDraftSurvives(r: Registry, id: string, resp: DraftResponse, now: int, later: int)
    requires id in r.windows && resp.success
    requires now <= later <= now + HourMs
    ensures var r' := WaitForDraft(r, id, Some(resp), now).0;
      DraftKey(id) in Cleanup(r'.storage, later, false)
  {
    var r' := WaitForDraft(r, id, Some(resp), now).0;
    var d := DraftInfo(resp.draftId, resp.order, now, id);
    assert r'.storage[DraftKey(id)] == ToValue(d);
    assert Field(ToValue(d), "timestamp") == Some(Num(now));
    if exists k :: k in r'.storage && Throws(k, r'.storage[k]) {
    } else {
      assert !IsStale(DraftKey(id), ToValue(d), later - HourMs);
    }
  }

  /** The stale keys of a listing, in listing order. */
  function StaleKeys(store: Store, listing: seq<string>, cutoff: int): seq<string> {
    if listing == [] then []
    else
      var k := listing[|listing| - 1];
      var rest := StaleKeys(store, listing[..|listing| - 1], cutoff);
      if k in store && IsStale(k, store[k], cutoff) then rest + [k] else rest
  }

  /** The stale keys of a listing are exactly its stale members, once each when
      the listing has no repeats. */
  lemma {:induction false} StaleKeysMembers(store: Store, listing: seq<string>, cutoff: int)
    ensures forall k :: k in StaleKeys(store, listing, cutoff) <==>
      k in listing && k in store && IsStale(k, store[k], cutoff)
    ensures Distinct(listing) ==> Distinct(StaleKeys(store, listing, cutoff))
  {
    if listing != [] {
      var front := listing[..|listing| - 1];
      var k := listing[|listing| - 1];
      StaleKeysMembers(store, front, cutoff);
      assert listing == front + [k];
      if Distinct(listing) {
        assert Distinct(front) by {
          forall a, b | 0 <= a < b < |front| ensures front[a] != front[b] {
            assert front[a] == listing[a] && front[b] == listing[b];
          }
        }
        assert k !in front by {
          forall a | 0 <= a < |front| ensures front[a] != k {
            assert front[a] == listing[a];
          }
        }
      }
    }
  }

  /** `cleanupOldDrafts`' loop over `Object.entries(result)`: the stale mirror
      keys in listing order, stopping at a stored `null` under a mirror key. */
  method StaleDraftKeys(store: Store, listing: seq<string>, cutoff: int) returns (keys: seq<string>, threw: bool)
    requires forall k :: k in store <==> k in listing
    requires Distinct(listing)
    ensures threw <==> exists k :: k in store && Throws(k, store[k])
    ensures !threw ==> keys == StaleKeys(store, listing, cutoff)
    ensures !threw ==> forall k :: k in keys <==> k in store && IsStale(k, store[k], cutoff)
    ensures !threw ==> Distinct(keys)
  {
    keys := [];
    threw := false;
    var i := 0;
    while i < |listing|
      invariant 0 <= i <= |listing|
      invariant keys == StaleKeys(store, listing[..i], cutoff)
      invariant forall j :: 0 <= j < i ==> !Throws(listing[j], store[listing[j]])
    {
      var key := listing[i];
      var value := store[key];
      assert listing[..i + 1][..i] == listing[..i];
      if IsDraftKey(key) {
        if value == Null {
          assert Throws(key, store[key]);
          threw := true;
          return;
        }
        if OlderThan(value, cutoff) {
          keys := keys + [key];
        }
      }
      i := i + 1;
    }
    assert listing[..i] == listing;
    forall k | k in store ensures !Throws(k, store[k]) {
      var j :| 0 <= j < |listing| && listing[j] == k;
    }
    StaleKeysMembers(store, listing, cutoff);
  }

  // ---------------------------------------------------------------- properties

  lemma RegisterValid(r: Registry, e: ComposeElement, id: string)
    requires Valid(r)
    ensures Valid(Register(r, e, id))
  {
    var r' := Register(r, e, id);
    if id !in r.windows {
      forall i, j | 0 <= i < j < |r'.order| ensures r'.order[i] != r'.order[j] {
        if j == |r.order| {
          assert r.order[i] in r.order;
        }
      }
    }
  }

  /** Registering under a fresh id adds exactly one entry, leaves the others as
      they were, and tags the element so that it finds its entry again. */
  lemma RegisterAddsOne(r: Registry, e: ComposeElement, id: string)
    requires id !in r.windows && id != ""
    ensures var r' := Register(r, e, id);
      && r'.windows.Keys == r.windows.Keys + {id}
      && (forall k :: k in r.windows ==> r'.windows[k] == r.windows[k])
      && r'.windows[id] == ComposeWindowInfo(id, e.id, None, IsReplyCompose(e), IsForwardCompose(e))
      && LookupByElement(r', e.id) == Some(r'.windows[id])
      && r'.order == r.order + [id]
      && r'.storage == r.storage
  {
  }

  /** `updateDraftInfo` on an unknown id changes nothing; on a known id it sets
      that entry's draft and writes its mirror key, and nothing else. */
  lemma UpdateDraftRules(r: Registry, id: string, d: DraftInfo)
    ensures id !in r.windows ==> UpdateDraft(r, id, d) == r
    ensures id in r.windows ==>
      var r' := UpdateDraft(r, id, d);
      && r'.windows == r.windows[id := r.windows[id].(draftInfo := Some(ToValue(d)))]
      && r'.storage == r.storage[DraftKey(id) := ToValue(d)]
      && r'.order == r.order && r'.tags == r.tags
  {
  }

  /** The lookup order of `getDraftInfo`: memory first, then storage (cached only
      for a registered window), then nothing. */
  lemma GetDraftOrder(r: Registry, id: string, readFails: bool)
    ensures var (r', v) := GetDraft(r, id, readFails);
      && (id in r.windows && IsTruthy(r.windows[id].draftInfo) ==> r' == r && v == r.windows[id].draftInfo)
      && (!(id in r.windows && IsTruthy(r.windows[id].draftInfo)) ==>
            if !readFails && IsTruthy(Get(r.storage, DraftKey(id))) then
              v == Some(r.storage[DraftKey(id)])
              && r'.windows == (if id in r.windows then r.windows[id := r.windows[id].(draftInfo := v)] else r.windows)
            else r' == r && v.None?)
      && r'.storage == r.storage && r'.order == r.order
  {
  }

  /** What `updateDraftInfo` recorded is what `getDraftInfo` returns, and it
      decodes to the same `DraftInfo`. */
  lemma UpdateThenGet(r: Registry, id: string, d: DraftInfo, readFails: bool)
    requires id in r.windows
    ensures GetDraft(UpdateDraft(r, id, d), id, readFails) == (UpdateDraft(r, id, d), Some(ToValue(d)))
    ensures FromValue(ToValue(d)) == Some(d)
  {
    DraftInfoRoundTrip(d);
  }

  /** The mirror outlives the in-memory map: a fresh manager over the same storage
      still finds the draft, and does not cache it for an unregistered id. */
  lemma MirrorSurvivesReload(r: Registry, id: string, d: DraftInfo)
    requires id in r.windows
    ensures var reloaded := Registry(map[], [], map[], UpdateDraft(r, id, d).storage);
      GetDraft(reloaded, id, false) == (reloaded, Some(ToValue(d)))
  {
    DraftInfoRoundTrip(d);
  }

  /** `waitForDraftSave` success records a `DraftInfo` for exactly this window,
      stamped with the current time; failure changes nothing. */
  lemma WaitForDraftRules(r: Registry, id: string, response: Option<DraftResponse>, now: int)
    ensures var (r', res) := WaitForDraft(r, id, response, now);
      && (res.Ok? <==> response.Some? && response.value.success)
      && (res.Ok? ==> res.value.composeWindowId == id && res.value.timestamp == now
                      && res.value.draftId == response.value.draftId
                      && r' == UpdateDraft(r, id, res.value))
      && (res.Err? ==> r' == r && res.error != "")
  {
  }

  /** Removal drops exactly that entry and its mirror key and keeps the
      registry well formed. */
  lemma RemoveExact(r: Registry, id: string)
    requires Valid(r)
    ensures var r' := Remove(r, id);
      && Valid(r')
      && r'.windows.Keys == r.windows.Keys - {id}
      && (forall k :: k in r'.windows ==> r'.windows[k] == r.windows[k])
      && r'.storage.Keys == r.storage.Keys - {DraftKey(id)}
      && (forall k :: k in r'.storage ==> r'.storage[k] == r.storage[k])
      && Lookup(r', id).None?
  {
  }

  /** `updateDraftInfo` only replaces an entry's draft, so the registry stays
      well formed. */
  lemma UpdateDraftValid(r: Registry, id: string, d: DraftInfo)
    requires Valid(r)
    ensures Valid(UpdateDraft(r, id, d))
  {
  }

  /** Caching a stored draft keeps the registry well formed. */
  lemma GetDraftValid(r: Registry, id: string, readFails: bool)
    requires Valid(r)
    ensures Valid(GetDraft(r, id, readFails).0)
  {
  }

  lemma WaitForDraftValid(r: Registry, id: string, response: Option<DraftResponse>, now: int)
    requires Valid(r)
    ensures Valid(WaitForDraft(r, id, response, now).0)
  {
    UpdateDraftValid(r, id, DraftInfo(if response.Some? then response.value.draftId else "",
                                      if response.Some? then response.value.order else 0, now, id));
  }

  /** Cleanup touches storage only, so the registry stays well formed. */
  lemma CleanupValid(r: Registry, now: int, readFails: bool)
    requires Valid(r)
    ensures Valid(r.(storage := Cleanup(r.storage, now, readFails)))
  {
  }

  // ---------------------------------------------------------------- the class

  /** `DraftManager`, with the state of the page and of storage it touches as
      fields. */
  class DraftManager {
    var windows: map<string, ComposeWindowInfo>
    var order: seq<string>
    var tags: map<ElementId, string>
    var storage: Store

    function State(): Registry
      reads this
    {
      Registry(windows, order, tags, storage)
    }

    constructor(tags: map<ElementId, string>, storage: Store)
      ensures State() == Registry(map[], [], tags, storage) && Valid(State())
    {
      windows := map[];
      order := [];
      this.tags := tags;
      this.storage := storage;
    }

    /** `registerComposeWindow`; `freshId` is what the id generator produced. */
    method RegisterComposeWindow(e: ComposeElement, freshId: string) returns (id: string)
      requires Valid(State())
      modifies this
      ensures id == freshId
      ensures State() == Register(old(State()), e, freshId)
      ensures Valid(State())
    {
      RegisterValid(State(), e, freshId);
      id := freshId;
      var info := ComposeWindowInfo(id, e.id, None, IsReplyCompose(e), IsForwardCompose(e));
      if id !in windows {
        order := order + [id];
      }
      windows := windows[id := info];
      tags := tags[e.id := id];
    }

    method GetComposeWindow(id: string) returns (info: Option<ComposeWindowInfo>)
      ensures info.Some? <==> id in windows
      ensures info.Some? ==> info.value == windows[id]
    {
      info := if id in windows then Some(windows[id]) else None;
    }

    method GetComposeWindowByElement(element: ElementId) returns (info: Option<ComposeWindowInfo>)
      ensures info.Some? <==> element in tags && tags[element] != "" && tags[element] in windows
      ensures info.Some? ==> info.value == windows[tags[element]]
    {
      if element in tags && tags[element] != "" {
        var id := tags[element];
        info := if id in windows then Some(windows[id]) else None;
      } else {
        info := None;
      }
    }

    method UpdateDraftInfo(id: string, d: DraftInfo)
      requires Valid(State())
      modifies this
      ensures State() == UpdateDraft(old(State()), id, d)
      ensures Valid(State())
    {
      UpdateDraftValid(State(), id, d);
      if id in windows {
        windows := windows[id := windows[id].(draftInfo := Some(ToValue(d)))];
        storage := storage[DraftKey(id) := ToValue(d)];
      }
    }

    /** `getDraftInfo`; `readFails` is a rejected storage read. */
    method GetDraftInfo(id: string, readFails: bool) returns (draft: Option<Value>)
      requires Valid(State())
      modifies this
      ensures (State(), draft) == GetDraft(old(State()), id, readFails)
      ensures Valid(State())
    {
      GetDraftValid(State(), id, readFails);
      if id in windows && IsTruthy(windows[id].draftInfo) {
        return windows[id].draftInfo;
      }
      if readFails {
        return None;
      }
      var stored := Get(storage, DraftKey(id));
      if IsTruthy(stored) {
        if id in windows {
          windows := windows[id := windows[id].(draftInfo := stored)];
        }
        return stored;
      }
      return None;
    }

    /** `waitForDraftSave`; `response` is the background worker's reply and `now`
        the clock. */
    method WaitForDraftSave(id: string, response: Option<DraftResponse>, now: int)
      returns (result: Result<DraftInfo, string>)
      requires Valid(State())
      modifies this
      ensures (State(), result) == WaitForDraft(old(State()), id, response, now)
      ensures Valid(State())
    {
      WaitForDraftValid(State(), id, response, now);
      if response.Some? && response.value.success {
        var d := DraftInfo(response.value.draftId, response.value.order, now, id);
        UpdateDraftInfo(id, d);
        result := Ok(d);
      } else {
        var msg := if response.Some? && response.value.error.Some? && response.value.error.value != ""
                   then response.value.error.value else "Failed to get draft ID";
        result := Err(msg);
      }
    }

    method RemoveComposeWindow(id: string)
      requires Valid(State())
      modifies this
      ensures State() == Remove(old(State()), id)
      ensures Valid(State())
    {
      RemoveExact(State(), id);
      windows := windows - {id};
      order := Without(order, id);
      storage := storage - {DraftKey(id)};
    }

    /** `Array.from(composeWindows.values())`: every entry once, in insertion order. */
    method GetAllComposeWindows() returns (infos: seq<ComposeWindowInfo>)
      requires Valid(State())
      ensures |infos| == |order| == |windows|
      ensures forall i :: 0 <= i < |infos| ==> infos[i] == windows[order[i]]
      ensures forall id :: id in windows <==> exists i :: 0 <= i < |infos| && infos[i].id == id
    {
      infos := [];
      var i := 0;
      while i < |order|
        invariant 0 <= i <= |order|
        invariant |infos| == i
        invariant forall j :: 0 <= j < i ==> infos[j] == windows[order[j]]
      {
        infos := infos + [windows[order[i]]];
        i := i + 1;
      }
      forall id | id in windows ensures exists i :: 0 <= i < |infos| && infos[i].id == id {
        var j :| 0 <= j < |order| && order[j] == id;
        assert infos[j].id == id;
      }
      DistinctCard(order, windows);
    }

    /** `cleanupOldDrafts` at time `now`; `listing` is the order in which storage
        lists its entries and `readFails` a rejected read. */
    method CleanupOldDrafts(now: int, readFails: bool, listing: seq<string>)
      requires Valid(State())
      requires forall k :: k in storage <==> k in listing
      requires Distinct(listing)
      modifies this
      ensures State() == old(State()).(storage := Cleanup(old(storage), now, readFails))
      ensures Valid(State())
    {
      CleanupValid(State(), now, readFails);
      if readFails {
        return;
      }
      var oneHourAgo := now - HourMs;
      var keysToRemove, threw := StaleDraftKeys(storage, listing, oneHourAgo);
      if threw {
        return;
      }
      if |keysToRemove| > 0 {
        storage := map k | k in storage && k !in keysToRemove :: storage[k];
      }
      assert storage == Cleanup(old(storage), now, readFails);
    }
  }

  /** A duplicate-free listing of a map's keys is as long as the map. */
  lemma {:induction false} DistinctCard(order: seq<string>, m: map<string, ComposeWindowInfo>)
    requires forall k :: k in m <==> k in order
    requires Distinct(order)
    ensures |order| == |m|
  {
    if order != [] {
      var k := order[|order| - 1];
      var rest := order[..|order| - 1];
      DropLast(order);
      var m' := m - {k};
      assert forall x :: x in m' <==> x in rest;
      DistinctCard(rest, m');
      assert |m'| == |m| - 1 by {
        assert m.Keys == m'.Keys + {k};
      }
    }
  }

  /** Dropping the last key of a duplicate-free listing leaves a duplicate-free
      listing without it. */
  lemma DropLast(order: seq<string>)
    requires order != [] && Distinct(order)
    ensures var k, rest := order[|order| - 1], order[..|order| - 1];
      && Distinct(rest) && k !in rest
      && forall x :: x in order <==> x in rest || x == k
  {
    var k, rest := order[|order| - 1], order[..|order| - 1];
    assert order == rest + [k];
    forall j | 0 <= j < |rest| ensures rest[j] != k {
      assert rest[j] == order[j];
    }
  }
}
