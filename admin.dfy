/**
 * The settings side of outgoing webhooks (`Rock_The_Slackbot_Admin`):
 * validating a posted webhook record, saving it into the stored list on
 * add or edit, looking one up by ID, and removing one by ID. The clock
 * (`time()`) and the ID generator (`uniqid()`) are parameters.
 */
module Admin {
  import opened Wrappers
  import Php
  import opened Webhooks

  // ---------------------------------------------------------------------
  // Field normalisation used by validate_outgoing_webhook
  // ---------------------------------------------------------------------

  /** The channel starts with `#` (a channel) or `@` (a user). */
  predicate HasChannelMarker(c: string) {
    |c| > 0 && (c[0] == '#' || c[0] == '@')
  }

  /** A channel is prefixed with `#` unless it starts with `#` or `@`, then trimmed. */
  function NormaliseChannel(c: string): string {
    Php.Trim(if HasChannelMarker(c) then c else "#" + c)
  }

  /** A normalised channel is non-empty and names a channel or a user. */
  lemma NormalisedChannelIsMarked(c: string)
    requires |c| > 0
    ensures HasChannelMarker(NormaliseChannel(c))
  {
    if HasChannelMarker(c) {
      Php.TrimKeepsFirst(c);
    } else {
      Php.TrimKeepsFirst("#" + c);
    }
  }

  /** Normalising a channel twice is normalising it once. */
  lemma NormaliseChannelIdempotent(c: string)
    requires |c| > 0
    ensures NormaliseChannel(NormaliseChannel(c)) == NormaliseChannel(c)
  {
    NormalisedChannelIsMarked(c);
    Php.TrimIdempotent(if HasChannelMarker(c) then c else "#" + c);
  }

  /** An icon emoji: every `:` removed, trimmed, and wrapped in colons. */
  function WrapEmoji(e: string): string {
    ":" + Php.Trim(Php.RemoveChar(e, ':')) + ":"
  }

  /** A wrapped emoji is a colon, a trimmed name without colons, and a colon. */
  lemma WrappedEmojiShape(e: string)
    ensures |WrapEmoji(e)| >= 2
    ensures WrapEmoji(e)[0] == ':' && WrapEmoji(e)[|WrapEmoji(e)| - 1] == ':'
    ensures ':' !in WrapEmoji(e)[1..|WrapEmoji(e)| - 1]
    ensures Php.Trim(WrapEmoji(e)[1..|WrapEmoji(e)| - 1]) == WrapEmoji(e)[1..|WrapEmoji(e)| - 1]
  {
    var t := Php.Trim(Php.RemoveChar(e, ':'));
    Php.TrimKeepsOut(Php.RemoveChar(e, ':'), ':');
    Php.TrimIdempotent(Php.RemoveChar(e, ':'));
    assert WrapEmoji(e)[1..|WrapEmoji(e)| - 1] == t;
  }

  /** Wrapping an emoji twice is wrapping it once. */
  lemma WrapEmojiIdempotent(e: string)
    ensures WrapEmoji(WrapEmoji(e)) == WrapEmoji(e)
  {
    var t := Php.Trim(Php.RemoveChar(e, ':'));
    WrappedEmojiShape(e);
    assert WrapEmoji(e)[1..|WrapEmoji(e)| - 1] == t;
    Php.RemoveCharAppend(":" + t, ":", ':');
    Php.RemoveCharAppend(":", t, ':');
    Php.RemoveAbsentChar(t, ':');
    assert Php.RemoveChar(":", ':') == "";
    assert Php.RemoveChar(WrapEmoji(e), ':') == t;
  }

  /** A present string field passed through `f`; an absent or empty one left as it is. */
  function MapPresent(o: Option<string>, f: string -> string): Option<string> {
    if Present(o) then Some(f(o.value)) else o
  }

  /** An event's channel normalised the way the webhook's own channel is. */
  function NormaliseEvent(e: EventSetting): EventSetting {
    e.(channel := MapPresent(e.channel, NormaliseChannel))
  }

  /** A posted post-type list: a non-empty string loses its spaces and is split on commas. */
  function SplitPostTypes(o: Option<StringOrList>): Option<StringOrList> {
    if PresentList(o) && o.value.Text?
    then Some(Items(Php.Explode(Php.RemoveChar(o.value.text, ' '), ',')))
    else o
  }

  /** The errors `validate_outgoing_webhook` reports. */
  datatype ValidationError =
    | NoName        // rock_the_slackbot_outgoing_webhook_no_name
    | NoWebhookUrl  // rock_the_slackbot_outgoing_webhook_no_webhook_url

  /** The errors of a record, in the order they are checked. */
  function ValidationErrors(h: Hook): (errors: seq<ValidationError>)
    ensures NoName in errors <==> !Present(h.name)
    ensures NoWebhookUrl in errors <==> !Present(h.webhookUrl)
    ensures |errors| <= 2
  {
    (if Present(h.name) then [] else [NoName]) + (if Present(h.webhookUrl) then [] else [NoWebhookUrl])
  }

  /** The normalised record: every field the validation rewrites, rewritten. */
  function Validated(h: Hook): Hook {
    h.(name := MapPresent(h.name, Php.Trim),
       webhookUrl := MapPresent(h.webhookUrl, Php.Trim),
       channel := MapPresent(h.channel, NormaliseChannel),
       iconEmoji := MapPresent(h.iconEmoji, WrapEmoji),
       iconUrl := MapPresent(h.iconUrl, Php.Trim),
       networkExcludePostTypes := SplitPostTypes(h.networkExcludePostTypes),
       events := map k | k in h.events :: NormaliseEvent(h.events[k]))
  }

  /** The outcome of `validate_outgoing_webhook`: the errors if any, else the normalised record. */
  function ValidationResult(h: Hook): Result<Hook, seq<ValidationError>> {
    if |ValidationErrors(h)| > 0 then Failure(ValidationErrors(h)) else Success(Validated(h))
  }

  /**
   * `validate_outgoing_webhook($webhook)`: checks the name and the webhook
   * URL, then trims and normalises the fields one after the other, and the
   * channel of each event in the `foreach` by reference.
   */
  method ValidateOutgoingWebhook(webhook: Hook) returns (r: Result<Hook, seq<ValidationError>>)
    ensures r == ValidationResult(webhook)
  {
    var hook := webhook;
    var errors: seq<ValidationError> := [];
    // 1) the name
    if !(hook.name.Some? && !Php.EmptyString(hook.name.value)) {
      errors := errors + [NoName];
    } else {
      hook := hook.(name := Some(Php.Trim(hook.name.value)));
    }
    // 2) the webhook URL
    if !(hook.webhookUrl.Some? && !Php.EmptyString(hook.webhookUrl.value)) {
      errors := errors + [NoWebhookUrl];
    } else {
      hook := hook.(webhookUrl := Some(Php.Trim(hook.webhookUrl.value)));
    }
    // 3) the channel starts with # or @
    if hook.channel.Some? && !Php.EmptyString(hook.channel.value) {
      hook := hook.(channel := Some(NormaliseChannel(hook.channel.value)));
    }
    // 4) the icon emoji is wrapped in colons
    if hook.iconEmoji.Some? && !Php.EmptyString(hook.iconEmoji.value) {
      hook := hook.(iconEmoji := Some(WrapEmoji(hook.iconEmoji.value)));
    }
    // 5) the icon URL is trimmed
    if hook.iconUrl.Some? && !Php.EmptyString(hook.iconUrl.value) {
      hook := hook.(iconUrl := Some(Php.Trim(hook.iconUrl.value)));
    }
    // 6) the network excluded post types become a list
    hook := hook.(networkExcludePostTypes := SplitPostTypes(hook.networkExcludePostTypes));
    // 7) the channel of each event
    var events := NormaliseEvents(hook.events);
    hook := hook.(events := events);
    assert errors == ValidationErrors(webhook);
    if |errors| > 0 {
      return Failure(errors);
    }
    assert hook == Validated(webhook);
    return Success(hook);
  }

  /** The `foreach` by reference over the events: each event's channel normalised. */
  method NormaliseEvents(events: map<string, EventSetting>) returns (r: map<string, EventSetting>)
    ensures r == map k | k in events :: NormaliseEvent(events[k])
  {
    r := events;
    var pending := events.Keys;
    while pending != {}
      invariant pending <= events.Keys && r.Keys == events.Keys
      invariant forall k :: k in r ==> r[k] == if k in pending then events[k] else NormaliseEvent(events[k])
      decreases pending
    {
      var key :| key in pending;
      var event := r[key];
      if event.channel.Some? && !Php.EmptyString(event.channel.value) {
        event := event.(channel := Some(NormaliseChannel(event.channel.value)));
      }
      r := r[key := event];
      pending := pending - {key};
    }
  }

  /** Validation fails exactly when the name or the webhook URL is missing or empty. */
  lemma ValidationFailsIff(h: Hook)
    ensures ValidationResult(h).Failure? <==> !Present(h.name) || !Present(h.webhookUrl)
  {
    if !Present(h.name) {
      assert NoName in ValidationErrors(h);
    } else if !Present(h.webhookUrl) {
      assert NoWebhookUrl in ValidationErrors(h);
    }
  }

  /**
   * After validation the name and the webhook URL are trimmed, a given
   * channel names a channel or a user, a given emoji is wrapped in colons,
   * and the ID and dates are those of the posted record.
   */
  lemma ValidatedFields(h: Hook)
    requires ValidationResult(h).Success?
    ensures var v := ValidationResult(h).value;
      v.name == Some(Php.Trim(h.name.value)) && v.webhookUrl == Some(Php.Trim(h.webhookUrl.value)) &&
      (Present(h.channel) ==> HasChannelMarker(v.channel.value)) &&
      (!Present(h.channel) ==> v.channel == h.channel) &&
      (Present(h.iconEmoji) ==> v.iconEmoji == Some(WrapEmoji(h.iconEmoji.value))) &&
      (!Present(h.iconEmoji) ==> v.iconEmoji == h.iconEmoji) &&
      (Present(h.iconUrl) ==> v.iconUrl == Some(Php.Trim(h.iconUrl.value))) &&
      (!Present(h.iconUrl) ==> v.iconUrl == h.iconUrl) &&
      v.id == h.id && v.dateCreated == h.dateCreated && v.dateModified == h.dateModified &&
      v.events.Keys == h.events.Keys
  {
    ValidationFailsIff(h);
    if Present(h.channel) {
      NormalisedChannelIsMarked(h.channel.value);
    }
  }

  /**
   * The channel of each event: a non-empty one names a channel or a user
   * after validation, an event without one is left as it was, and no other
   * setting of an event changes.
   */
  lemma ValidatedEvents(h: Hook)
    requires ValidationResult(h).Success?
    ensures forall k :: k in h.events ==>
      k in ValidationResult(h).value.events &&
      ValidationResult(h).value.events[k].(channel := h.events[k].channel) == h.events[k] &&
      (Present(h.events[k].channel) ==> HasChannelMarker(ValidationResult(h).value.events[k].channel.value)) &&
      (!Present(h.events[k].channel) ==> ValidationResult(h).value.events[k] == h.events[k])
  {
    forall k | k in h.events
      ensures Present(h.events[k].channel) ==> HasChannelMarker(ValidationResult(h).value.events[k].channel.value)
    {
      if Present(h.events[k].channel) {
        NormalisedChannelIsMarked(h.events[k].channel.value);
      }
    }
  }

  /**
   * A non-empty string of network-excluded post types becomes a list whose
   * pieces hold no space and no comma and, joined by commas, give the
   * string without its spaces; a list or an empty setting is kept.
   */
  lemma SplitPostTypesFacts(o: Option<StringOrList>)
    ensures PresentList(o) && o.value.Text? ==>
      SplitPostTypes(o).Some? && SplitPostTypes(o).value.Items? &&
      (forall k :: 0 <= k < |SplitPostTypes(o).value.items| ==>
         ' ' !in SplitPostTypes(o).value.items[k] && ',' !in SplitPostTypes(o).value.items[k]) &&
      Php.Implode(SplitPostTypes(o).value.items, ',') == Php.RemoveChar(o.value.text, ' ')
    ensures !(PresentList(o) && o.value.Text?) ==> SplitPostTypes(o) == o
  {
    if PresentList(o) && o.value.Text? {
      var t := Php.RemoveChar(o.value.text, ' ');
      Php.ExplodeKeepsOut(t, ',', ' ');
      Php.ImplodeExplode(t, ',');
    }
  }

  /**
   * After validation a non-empty string of network-excluded post types is
   * a list of names without spaces or commas that, joined by commas, give
   * the posted string without its spaces; a list or an empty setting is kept.
   */
  lemma ValidatedPostTypes(h: Hook)
    requires ValidationResult(h).Success?
    ensures PresentList(h.networkExcludePostTypes) && h.networkExcludePostTypes.value.Text? ==>
      ValidationResult(h).value.networkExcludePostTypes.Some? &&
      ValidationResult(h).value.networkExcludePostTypes.value.Items? &&
      (forall k :: 0 <= k < |ValidationResult(h).value.networkExcludePostTypes.value.items| ==>
         ' ' !in ValidationResult(h).value.networkExcludePostTypes.value.items[k] &&
         ',' !in ValidationResult(h).value.networkExcludePostTypes.value.items[k]) &&
      Php.Implode(ValidationResult(h).value.networkExcludePostTypes.value.items, ',') ==
        Php.RemoveChar(h.networkExcludePostTypes.value.text, ' ')
    ensures !(PresentList(h.networkExcludePostTypes) && h.networkExcludePostTypes.value.Text?) ==>
      ValidationResult(h).value.networkExcludePostTypes == h.networkExcludePostTypes
  {
    SplitPostTypesFacts(h.networkExcludePostTypes);
  }

  /** A normalised channel is present again, so a second pass normalises it to itself. */
  lemma NormaliseChannelFieldIdempotent(o: Option<string>)
    ensures MapPresent(MapPresent(o, NormaliseChannel), NormaliseChannel) == MapPresent(o, NormaliseChannel)
  {
    if Present(o) {
      NormalisedChannelIsMarked(o.value);
      NormaliseChannelIdempotent(o.value);
      assert Present(MapPresent(o, NormaliseChannel));
    }
  }

  lemma TrimFieldIdempotent(o: Option<string>)
    ensures MapPresent(MapPresent(o, Php.Trim), Php.Trim) == MapPresent(o, Php.Trim)
  {
    if Present(o) {
      Php.TrimIdempotent(o.value);
    }
  }

  lemma WrapEmojiFieldIdempotent(o: Option<string>)
    ensures MapPresent(MapPresent(o, WrapEmoji), WrapEmoji) == MapPresent(o, WrapEmoji)
  {
    if Present(o) {
      WrapEmojiIdempotent(o.value);
      WrappedEmojiShape(o.value);
    }
  }

  /** Validating an already validated record changes nothing. */
  lemma ValidatedIdempotent(h: Hook)
    ensures Validated(Validated(h)) == Validated(h)
  {
    var v := Validated(h);
    TrimFieldIdempotent(h.name);
    TrimFieldIdempotent(h.webhookUrl);
    TrimFieldIdempotent(h.iconUrl);
    NormaliseChannelFieldIdempotent(h.channel);
    WrapEmojiFieldIdempotent(h.iconEmoji);
    forall k | k in h.events
      ensures NormaliseEvent(NormaliseEvent(h.events[k])) == NormaliseEvent(h.events[k])
    {
      NormaliseChannelFieldIdempotent(h.events[k].channel);
    }
    assert Validated(v).events == v.events;
  }

  // ---------------------------------------------------------------------
  // get_outgoing_webhook_setting
  // ---------------------------------------------------------------------

  /**
   * `get_outgoing_webhook_setting($hook_id, $network)`: lookup by ID in the
   * stored site list, or in the network list when `network` is set.
   */
  method OutgoingWebhookSetting(siteHooks: seq<Hook>, networkHooks: seq<Hook>, id: string, network: bool)
    returns (r: Option<Hook>)
    ensures r == FirstWithId(if network then networkHooks else siteHooks, id)
    ensures r.Some? ==> r.value.id == Some(id) && r.value in (if network then networkHooks else siteHooks)
  {
    var hooks := if network then networkHooks else siteHooks;
    if |hooks| == 0 {
      return None;
    }
    r := FindHook(hooks, id);
  }

  // ---------------------------------------------------------------------
  // update_outgoing_webhooks_setting
  // ---------------------------------------------------------------------

  /**
   * What the settings sanitiser hands back to be stored: the posted value
   * itself when it does not come from the edit form, else the list.
   */
  datatype StoredSetting = FormValue(value: Hook) | HookList(hooks: seq<Hook>)

  /** The posted record comes from the edit form. */
  predicate IsEditing(value: Hook) {
    value.editing == Some(1)
  }

  /**
   * Whether a saved hook counts as modified. Each of its fields is compared
   * with the whole posted record rather than with the posted field, which
   * never matches, so any hook with at least one key counts as modified.
   */
  predicate HookWasModified(saved: Hook) {
    saved.id.Some? || saved.name.Some? || saved.webhookUrl.Some? || saved.channel.Some? ||
    saved.username.Some? || saved.iconEmoji.Some? || saved.iconUrl.Some? ||
    saved.deactivate.Some? || saved.excludePostTypes.Some? ||
    saved.networkExcludePostTypes.Some? || |saved.events| > 0 || saved.dateCreated.Some? ||
    saved.dateModified.Some? || saved.editing.Some?
  }

  /** The stored list with every hook whose ID is `id` replaced by `replacement`. */
  function ReplaceById(hooks: seq<Hook>, id: string, replacement: Hook): (r: seq<Hook>)
    ensures |r| == |hooks|
    ensures forall k :: 0 <= k < |hooks| ==> r[k] == if hooks[k].id == Some(id) then replacement else hooks[k]
  {
    seq(|hooks|, k requires 0 <= k < |hooks| => if hooks[k].id == Some(id) then replacement else hooks[k])
  }

  /** A hook added with a fresh ID, created and modified now. */
  function AddedHook(value: Hook, newId: string, now: int): Hook {
    value.(id := Some(newId), dateCreated := Some(now), dateModified := Some(now))
  }

  /** The `foreach` by reference of an edit: each saved hook with the edited ID becomes the posted record. */
  method ReplaceEditedHook(saved: seq<Hook>, editId: string, value: Hook, now: int) returns (hooks: seq<Hook>)
    ensures hooks == ReplaceById(saved, editId, value.(dateModified := Some(now)))
  {
    hooks := saved;
    var posted := value;
    var i := 0;
    while i < |hooks|
      invariant 0 <= i <= |hooks| == |saved|
      invariant posted == value || posted == value.(dateModified := Some(now))
      invariant forall k :: 0 <= k < |saved| ==>
        hooks[k] == if k < i && saved[k].id == Some(editId) then value.(dateModified := Some(now)) else saved[k]
    {
      var hook := hooks[i];
      if hook.id.Some? && hook.id.value == editId {
        if HookWasModified(hook) {
          posted := posted.(dateModified := Some(now));
        }
        hooks := hooks[i := posted];
      }
      i := i + 1;
    }
  }

  /**
   * `update_outgoing_webhooks_setting($value)` on the saved site list:
   * values not from the edit form are handed back untouched; an invalid
   * record leaves the saved list as it is; a record with an ID replaces the
   * saved hooks with that ID; a record without one is appended with a fresh
   * ID and both dates set to now.
   */
  method UpdateOutgoingWebhooksSetting(saved: seq<Hook>, value: Hook, now: int, newId: string)
    returns (r: StoredSetting)
    ensures !IsEditing(value) ==> r == FormValue(value)
    ensures IsEditing(value) ==>
      var posted := value.(editing := None);
      match ValidationResult(posted)
      case Failure(_) => r == HookList(saved)
      case Success(v) =>
        if Present(v.id) then r == HookList(ReplaceById(saved, v.id.value, v.(dateModified := Some(now))))
        else r == HookList(saved + [AddedHook(v, newId, now)])
  {
    if !(value.editing.Some? && value.editing.value == 1) {
      return FormValue(value);
    }
    var posted := value.(editing := None);
    var validated := ValidateOutgoingWebhook(posted);
    if validated.Failure? {
      return HookList(saved);
    }
    var v := validated.value;
    if v.id.Some? && !Php.EmptyString(v.id.value) {
      var hooks := ReplaceEditedHook(saved, v.id.value, v, now);
      return HookList(hooks);
    }
    return HookList(saved + [AddedHook(v, newId, now)]);
  }

  /** An edit leaves the hooks with other IDs where and as they were, and adds none. */
  lemma EditKeepsOthers(saved: seq<Hook>, id: string, replacement: Hook, k: nat)
    requires k < |saved| && saved[k].id != Some(id)
    ensures |ReplaceById(saved, id, replacement)| == |saved|
    ensures ReplaceById(saved, id, replacement)[k] == saved[k]
  {
  }

  /** Editing an ID that is not saved changes nothing: the record is not added. */
  lemma EditOfMissingIdChangesNothing(saved: seq<Hook>, id: string, replacement: Hook)
    requires forall k :: 0 <= k < |saved| ==> saved[k].id != Some(id)
    ensures ReplaceById(saved, id, replacement) == saved
  {
  }

  /** An added hook gets the fresh ID, and its creation and modification dates agree. */
  lemma AddedHookFacts(saved: seq<Hook>, value: Hook, newId: string, now: int)
    ensures var r := saved + [AddedHook(value, newId, now)];
      |r| == |saved| + 1 && r[..|saved|] == saved && r[|saved|].id == Some(newId) &&
      r[|saved|].dateCreated == r[|saved|].dateModified == Some(now) &&
      r[|saved|].name == value.name && r[|saved|].events == value.events
  {
    var r := saved + [AddedHook(value, newId, now)];
    assert r[..|saved|] == saved;
  }

  /** Every saved hook matching the edited ID has a key, so its modification date is refreshed. */
  lemma EditAlwaysRefreshesDate(saved: Hook, id: string)
    requires saved.id == Some(id)
    ensures HookWasModified(saved)
  {
  }

  // ---------------------------------------------------------------------
  // delete_outgoing_webhook
  // ---------------------------------------------------------------------

  /** What the delete handler stores: nothing when no hook matched, else the rest (null when empty). */
  datatype DeleteOutcome = NotDeleted | Deleted(stored: Option<seq<Hook>>)

  /** The hooks kept by a deletion of `id`, in their order. */
  function Remaining(hooks: seq<Hook>, id: string): seq<Hook> {
    Select(hooks, (h: Hook) => h.id != Some(id), h => h)
  }

  /** Exactly the hooks with another ID (or none) remain. */
  lemma RemainingMembers(hooks: seq<Hook>, id: string, x: Hook)
    ensures x in Remaining(hooks, id) <==> x in hooks && x.id != Some(id)
  {
    SelectMembers(hooks, (h: Hook) => h.id != Some(id), h => h, x);
  }

  /** Deleting keeps the order of the remaining hooks. */
  lemma RemainingAppend(a: seq<Hook>, b: seq<Hook>, id: string)
    ensures Remaining(a + b, id) == Remaining(a, id) + Remaining(b, id)
  {
    SelectAppend(a, b, (h: Hook) => h.id != Some(id), h => h);
  }

  /**
   * The removal loop of `delete_outgoing_webhook`: every stored hook whose
   * ID is `hookId` is unset, and the rest are reindexed; an emptied list is
   * stored as null. An empty ID deletes nothing.
   */
  method DeleteOutgoingWebhook(hooks: seq<Hook>, hookId: string) returns (r: DeleteOutcome)
    ensures Php.EmptyString(hookId) ==> r == NotDeleted
    ensures !Php.EmptyString(hookId) ==>
      (r.Deleted? <==> exists k :: 0 <= k < |hooks| && hooks[k].id == Some(hookId))
    ensures r.Deleted? ==> r.stored == NonEmpty(Remaining(hooks, hookId))
  {
    if Php.EmptyString(hookId) || |hooks| == 0 {
      return NotDeleted;
    }
    var kept: seq<Hook> := [];
    var deleted := false;
    var i := 0;
    while i < |hooks|
      invariant 0 <= i <= |hooks|
      invariant kept == Remaining(hooks[..i], hookId)
      invariant deleted <==> exists k :: 0 <= k < i && hooks[k].id == Some(hookId)
    {
      var hook := hooks[i];
      assert hooks[..i + 1] == hooks[..i] + [hook];
      if hook.id.Some? && hookId == hook.id.value {
        deleted := true;
      } else {
        kept := kept + [hook];
      }
      i := i + 1;
    }
    assert hooks[..i] == hooks;
    if !deleted {
      return NotDeleted;
    }
    if |kept| == 0 {
      return Deleted(None);
    }
    return Deleted(Some(kept));
  }

  /** After a deletion no stored hook has the deleted ID. */
  lemma DeletedIdIsGone(hooks: seq<Hook>, id: string)
    ensures forall x :: x in Remaining(hooks, id) ==> x.id != Some(id)
  {
    forall x | x in Remaining(hooks, id)
      ensures x.id != Some(id)
    {
      RemainingMembers(hooks, id, x);
    }
  }
}
