/**
 * Outgoing webhooks as stored in the plugin's options, and the rules of
 * `Rock_The_Slackbot` that pick the webhooks an event is sent to:
 * merging the network and site lists, dropping deactivated webhooks,
 * matching requested events and excluded post types, lookup by ID, and
 * `unformat_slack_links`. The stored option arrays are parameters.
 */
module Webhooks {
  import opened Wrappers
  import Php

  /** A setting the form stores as a comma-separated string, or already split into a list. */
  datatype StringOrList = Text(text: string) | Items(items: seq<string>)

  /** `empty()` of such a setting. */
  predicate IsEmpty(v: StringOrList) {
    match v
    case Text(s) => Php.EmptyString(s)
    case Items(xs) => |xs| == 0
  }

  /** `isset($x) && ! empty($x)` for an optional string. */
  predicate Present(o: Option<string>) {
    o.Some? && !Php.EmptyString(o.value)
  }

  /** `isset($x) && ! empty($x)` for an optional string-or-list setting. */
  predicate PresentList(o: Option<StringOrList>) {
    o.Some? && !IsEmpty(o.value)
  }

  /** A setting as a list: a string is split on commas. */
  function AsList(v: StringOrList): seq<string> {
    match v
    case Text(s) => Php.Explode(s, ',')
    case Items(xs) => xs
  }

  /** The settings of one event of a webhook (the array `$hook['events'][$event]`). */
  datatype EventSetting = EventSetting(
    active: Option<int>,
    channel: Option<string>,
    username: Option<string>,
    iconEmoji: Option<string>,
    iconUrl: Option<string>,
    excludePostTypes: Option<StringOrList>)

  /** `empty()` of an event's settings: no key is set. */
  predicate EventIsEmpty(e: EventSetting) {
    e.active.None? && e.channel.None? && e.username.None? && e.iconEmoji.None? &&
    e.iconUrl.None? && e.excludePostTypes.None?
  }

  /**
   * One stored outgoing webhook. A key missing from the PHP array is `None`;
   * a missing or non-array `events` is the empty map; `editing` is the flag
   * the edit form posts along with the record.
   */
  datatype Hook = Hook(
    id: Option<string>,
    name: Option<string>,
    webhookUrl: Option<string>,
    channel: Option<string>,
    username: Option<string>,
    iconEmoji: Option<string>,
    iconUrl: Option<string>,
    deactivate: Option<int>,
    excludePostTypes: Option<StringOrList>,
    networkExcludePostTypes: Option<StringOrList>,
    events: map<string, EventSetting>,
    dateCreated: Option<int>,
    dateModified: Option<int>,
    editing: Option<int>)

  /** `false` or a non-empty list, as the getters return. */
  function NonEmpty(hooks: seq<Hook>): (r: Option<seq<Hook>>)
    ensures r.Some? <==> |hooks| > 0
    ensures r.Some? ==> r.value == hooks
  {
    if |hooks| == 0 then None else Some(hooks)
  }

  /**
   * The hooks of `hooks`, in order, that `keep` accepts, each passed through
   * `prepare`: what a `foreach` that appends the kept (and possibly
   * rewritten) hooks to a fresh array produces.
   */
  function Select(hooks: seq<Hook>, keep: Hook -> bool, prepare: Hook -> Hook): (r: seq<Hook>)
    ensures |r| <= |hooks|
  {
    if |hooks| == 0 then []
    else
      var last := hooks[|hooks| - 1];
      Select(hooks[..|hooks| - 1], keep, prepare) + (if keep(last) then [prepare(last)] else [])
  }

  /** Selection keeps order: selecting from a concatenation concatenates the selections. */
  lemma {:induction false} SelectAppend(a: seq<Hook>, b: seq<Hook>, keep: Hook -> bool, prepare: Hook -> Hook)
    ensures Select(a + b, keep, prepare) == Select(a, keep, prepare) + Select(b, keep, prepare)
    decreases |b|
  {
    if |b| > 0 {
      var b' := b[..|b| - 1];
      assert (a + b)[..|a + b| - 1] == a + b';
      assert (a + b)[|a + b| - 1] == b[|b| - 1];
      SelectAppend(a, b', keep, prepare);
    } else {
      assert a + b == a;
    }
  }

  /** The selection holds exactly the prepared versions of the accepted hooks. */
  lemma {:induction false} SelectMembers(hooks: seq<Hook>, keep: Hook -> bool, prepare: Hook -> Hook, x: Hook)
    ensures x in Select(hooks, keep, prepare) <==> exists h :: h in hooks && keep(h) && x == prepare(h)
    decreases |hooks|
  {
    if |hooks| > 0 {
      var init, last := hooks[..|hooks| - 1], hooks[|hooks| - 1];
      SelectMembers(init, keep, prepare, x);
      assert hooks == init + [last];
      if x in Select(hooks, keep, prepare) && !(x in Select(init, keep, prepare)) {
        assert last in hooks;
      }
      if h :| h in hooks && keep(h) && x == prepare(h) {
        if h != last {
          assert h in init;
        }
      }
    }
  }

  // ---------------------------------------------------------------------
  // get_all_outgoing_webhooks, get_active_outgoing_webhooks
  // ---------------------------------------------------------------------

  /**
   * `get_all_outgoing_webhooks($network)`: the site option (an empty option
   * is the empty list), preceded by the network option when network
   * webhooks are asked for and the plugin is network-active.
   */
  function AllOutgoingWebhooks(siteHooks: seq<Hook>, networkHooks: seq<Hook>, network: bool, networkActive: bool): (r: seq<Hook>)
    ensures network && networkActive ==> |r| == |networkHooks| + |siteHooks|
    ensures network && networkActive ==> r[..|networkHooks|] == networkHooks && r[|networkHooks|..] == siteHooks
    ensures !(network && networkActive) ==> r == siteHooks
  {
    if network && networkActive then networkHooks + siteHooks else siteHooks
  }

  /** A hook is deactivated when its `deactivate` setting is set and positive. */
  predicate Deactivated(h: Hook) {
    h.deactivate.Some? && h.deactivate.value > 0
  }

  /** The active hooks of a list, in order. */
  function Active(hooks: seq<Hook>): seq<Hook> {
    Select(hooks, h => !Deactivated(h), h => h)
  }

  /** A hook is kept exactly when it is in the list and not deactivated. */
  lemma ActiveMembers(hooks: seq<Hook>, x: Hook)
    ensures x in Active(hooks) <==> x in hooks && !Deactivated(x)
  {
    SelectMembers(hooks, h => !Deactivated(h), h => h, x);
  }

  /** Dropping deactivated hooks keeps the order of the others. */
  lemma ActiveAppend(a: seq<Hook>, b: seq<Hook>)
    ensures Active(a + b) == Active(a) + Active(b)
  {
    SelectAppend(a, b, h => !Deactivated(h), h => h);
  }

  /**
   * What `get_active_outgoing_webhooks()` returns: the hooks of
   * `get_all_outgoing_webhooks()` (network hooks included, its default)
   * that are not deactivated, or `false` (None) when there are none.
   */
  function ActiveHooks(siteHooks: seq<Hook>, networkHooks: seq<Hook>, networkActive: bool): Option<seq<Hook>> {
    NonEmpty(Active(AllOutgoingWebhooks(siteHooks, networkHooks, true, networkActive)))
  }

  /** `get_active_outgoing_webhooks()`: the loop over all outgoing webhooks. */
  method ActiveOutgoingWebhooks(siteHooks: seq<Hook>, networkHooks: seq<Hook>, networkActive: bool)
    returns (r: Option<seq<Hook>>)
    ensures r == NonEmpty(Active(AllOutgoingWebhooks(siteHooks, networkHooks, true, networkActive)))
  {
    var all := AllOutgoingWebhooks(siteHooks, networkHooks, true, networkActive);
    if |all| == 0 {
      return None;
    }
    var active: seq<Hook> := [];
    var i := 0;
    while i < |all|
      invariant 0 <= i <= |all|
      invariant active == Active(all[..i])
    {
      var hook := all[i];
      assert all[..i + 1] == all[..i] + [hook];
      if !(hook.deactivate.Some? && hook.deactivate.value > 0) {
        active := active + [hook];
      }
      i := i + 1;
    }
    assert all[..i] == all;
    r := NonEmpty(active);
  }

  // ---------------------------------------------------------------------
  // get_outgoing_webhooks
  // ---------------------------------------------------------------------

  /** The requested events: a string is split on commas once its spaces are removed. */
  function RequestedEvents(events: StringOrList): seq<string> {
    match events
    case Text(s) => Php.Explode(Php.RemoveChar(s, ' '), ',')
    case Items(xs) => xs
  }

  /** A requested event named in a string holds no space and no comma. */
  lemma RequestedEventsAreNames(s: string)
    ensures forall k :: 0 <= k < |RequestedEvents(Text(s))| ==>
      ' ' !in RequestedEvents(Text(s))[k] && ',' !in RequestedEvents(Text(s))[k]
  {
    Php.ExplodeKeepsOut(Php.RemoveChar(s, ' '), ',', ' ');
  }

  /** The post types passed with the event: a non-empty string is split on commas. */
  function PostTypes(postType: Option<StringOrList>): Option<StringOrList> {
    if postType.Some? && postType.value.Text? && !IsEmpty(postType.value)
    then Some(Items(Php.Explode(postType.value.text, ',')))
    else postType
  }

  /**
   * `array_intersect($post_types, $excluded)` is non-empty. Given a string
   * (which only an empty post type can still be here) it yields no array,
   * which counts as no intersection.
   */
  predicate Intersects(postTypes: StringOrList, excluded: seq<string>) {
    postTypes.Items? && exists x :: x in postTypes.items && x in excluded
  }

  /** A hook-level exclusion list, split on commas when it is a non-empty string. */
  function SplitSetting(o: Option<StringOrList>): Option<StringOrList> {
    if PresentList(o) && o.value.Text? then Some(Items(Php.Explode(o.value.text, ','))) else o
  }

  /** The post types a hook excludes: its own exclusions, then its network exclusions. */
  function HookExclusions(h: Hook): seq<string> {
    (if PresentList(h.excludePostTypes) then AsList(h.excludePostTypes.value) else []) +
    (if PresentList(h.networkExcludePostTypes) then AsList(h.networkExcludePostTypes.value) else [])
  }

  /** Whether the hook-level exclusions are consulted for this request. */
  predicate ChecksHookExclusions(h: Hook, postTypes: Option<StringOrList>) {
    postTypes.Some? && (h.excludePostTypes.Some? || h.networkExcludePostTypes.Some?)
  }

  /** The hook is skipped because a passed post type is excluded by the hook. */
  predicate HookExcludes(h: Hook, postTypes: Option<StringOrList>) {
    ChecksHookExclusions(h, postTypes) && Intersects(postTypes.value, HookExclusions(h))
  }

  /**
   * The hook as appended to the result: when its exclusions were consulted,
   * its exclusion strings have been split into lists in place.
   */
  function Prepared(h: Hook, postTypes: Option<StringOrList>): Hook {
    if ChecksHookExclusions(h, postTypes)
    then h.(excludePostTypes := SplitSetting(h.excludePostTypes),
            networkExcludePostTypes := SplitSetting(h.networkExcludePostTypes))
    else h
  }

  /** The event's own exclusions rule out one of the passed post types. */
  predicate EventExcludes(settings: EventSetting, postTypes: Option<StringOrList>) {
    postTypes.Some? && !IsEmpty(postTypes.value) && PresentList(settings.excludePostTypes) &&
    Intersects(postTypes.value, AsList(settings.excludePostTypes.value))
  }

  /** The hook has `event` switched on and not excluded for these post types. */
  predicate EventMatches(h: Hook, event: string, postTypes: Option<StringOrList>) {
    event in h.events && h.events[event].active == Some(1) &&
    !EventExcludes(h.events[event], postTypes)
  }

  /** The hook is sent for this request. */
  predicate Wanted(h: Hook, events: seq<string>, postTypes: Option<StringOrList>) {
    !HookExcludes(h, postTypes) && |h.events| > 0 &&
    exists k :: 0 <= k < |events| && EventMatches(h, events[k], postTypes)
  }

  /** The hooks sent for the request, in the order of the active list. */
  function Filtered(hooks: seq<Hook>, events: seq<string>, postTypes: Option<StringOrList>): seq<Hook> {
    Select(hooks, h => Wanted(h, events, postTypes), h => Prepared(h, postTypes))
  }

  /**
   * The inner `foreach` over the requested events: whether some requested
   * event is set on the hook, active, and not excluded for the post types.
   */
  method HasRequestedEvent(hook: Hook, events: seq<string>, postTypes: Option<StringOrList>) returns (found: bool)
    ensures found <==> exists k :: 0 <= k < |events| && EventMatches(hook, events[k], postTypes)
  {
    var k := 0;
    while k < |events|
      invariant 0 <= k <= |events|
      invariant forall m :: 0 <= m < k ==> !EventMatches(hook, events[m], postTypes)
    {
      var event := events[k];
      if event in hook.events {
        var settings := hook.events[event];
        if !(settings.active.Some? && settings.active.value == 1) {
          k := k + 1;
          continue;
        }
        if postTypes.Some? && !IsEmpty(postTypes.value) && PresentList(settings.excludePostTypes) {
          var excluded := AsList(settings.excludePostTypes.value);
          if Intersects(postTypes.value, excluded) {
            k := k + 1;
            continue;
          }
        }
        assert EventMatches(hook, events[k], postTypes);
        return true;
      }
      k := k + 1;
    }
    return false;
  }

  /**
   * `get_outgoing_webhooks($events, $event_data)`: the result of
   * `get_active_outgoing_webhooks()` when no event is asked for, otherwise
   * the active hooks wanted for the request (or `false` when there are none).
   */
  method OutgoingWebhooks(siteHooks: seq<Hook>, networkHooks: seq<Hook>, networkActive: bool,
                          events: StringOrList, postType: Option<StringOrList>)
    returns (r: Option<seq<Hook>>)
    ensures ActiveHooks(siteHooks, networkHooks, networkActive).None? ==> r.None?
    ensures ActiveHooks(siteHooks, networkHooks, networkActive).Some? && IsEmpty(events) ==>
      r == ActiveHooks(siteHooks, networkHooks, networkActive)
    ensures ActiveHooks(siteHooks, networkHooks, networkActive).Some? && !IsEmpty(events) ==>
      r == NonEmpty(Filtered(ActiveHooks(siteHooks, networkHooks, networkActive).value,
                             RequestedEvents(events), PostTypes(postType)))
  {
    var active := ActiveOutgoingWebhooks(siteHooks, networkHooks, networkActive);
    if active.None? {
      return None;
    }
    if IsEmpty(events) {
      return active;
    }
    var hooks := active.value;
    var requested := RequestedEvents(events);
    var postTypes := PostTypes(postType);
    var filtered: seq<Hook> := [];
    var i := 0;
    while i < |hooks|
      invariant 0 <= i <= |hooks|
      invariant filtered == Filtered(hooks[..i], requested, postTypes)
    {
      var hook := hooks[i];
      assert hooks[..i + 1] == hooks[..i] + [hook];
      var wanted := HookIsWanted(hook, requested, postTypes);
      if wanted {
        filtered := filtered + [Prepared(hook, postTypes)];
      }
      i := i + 1;
    }
    assert hooks[..i] == hooks;
    r := NonEmpty(filtered);
  }

  /** One turn of the outer `foreach`: the hook-level exclusion check, then the event check. */
  method HookIsWanted(hook: Hook, events: seq<string>, postTypes: Option<StringOrList>) returns (wanted: bool)
    ensures wanted == Wanted(hook, events, postTypes)
  {
    if postTypes.Some? && (hook.excludePostTypes.Some? || hook.networkExcludePostTypes.Some?) {
      var exclusions := HookExclusions(hook);
      if Intersects(postTypes.value, exclusions) {
        return false;
      }
    }
    if |hook.events| > 0 {
      wanted := HasRequestedEvent(hook, events, postTypes);
    } else {
      wanted := false;
    }
  }

  /**
   * A hook is in the result exactly when it is active and wanted: each
   * result entry is such a hook, with its exclusion lists split.
   */
  lemma FilteredMembers(hooks: seq<Hook>, events: seq<string>, postTypes: Option<StringOrList>, x: Hook)
    ensures x in Filtered(hooks, events, postTypes) <==>
      exists h :: h in hooks && Wanted(h, events, postTypes) && x == Prepared(h, postTypes)
  {
    SelectMembers(hooks, h => Wanted(h, events, postTypes), h => Prepared(h, postTypes), x);
  }

  /** The result follows the order of the active list, each hook at most once. */
  lemma FilteredAppend(a: seq<Hook>, b: seq<Hook>, events: seq<string>, postTypes: Option<StringOrList>)
    ensures Filtered(a + b, events, postTypes) == Filtered(a, events, postTypes) + Filtered(b, events, postTypes)
    ensures |Filtered(a, events, postTypes)| <= |a|
  {
    SelectAppend(a, b, h => Wanted(h, events, postTypes), h => Prepared(h, postTypes));
  }

  /** Preparing a hook changes its exclusion settings only. */
  lemma PreparedKeepsIdentity(h: Hook, postTypes: Option<StringOrList>)
    ensures Prepared(h, postTypes).(excludePostTypes := h.excludePostTypes,
                                     networkExcludePostTypes := h.networkExcludePostTypes) == h
    ensures AsListOf(Prepared(h, postTypes).excludePostTypes) == AsListOf(h.excludePostTypes)
    ensures AsListOf(Prepared(h, postTypes).networkExcludePostTypes) == AsListOf(h.networkExcludePostTypes)
  {
  }

  /** An exclusion setting as the list it stands for (an empty setting stands for none). */
  function AsListOf(o: Option<StringOrList>): seq<string> {
    if PresentList(o) then AsList(o.value) else []
  }

  /**
   * A hook is among the active outgoing webhooks exactly when it is stored
   * on the site, or on the network while the plugin is network-active, and
   * is not deactivated.
   */
  lemma ActiveHooksMembers(siteHooks: seq<Hook>, networkHooks: seq<Hook>, networkActive: bool, x: Hook)
    ensures (ActiveHooks(siteHooks, networkHooks, networkActive).Some? &&
             x in ActiveHooks(siteHooks, networkHooks, networkActive).value) <==>
            (x in siteHooks || (networkActive && x in networkHooks)) && !Deactivated(x)
  {
    var all := AllOutgoingWebhooks(siteHooks, networkHooks, true, networkActive);
    ActiveMembers(all, x);
    assert x in all <==> x in siteHooks || (networkActive && x in networkHooks);
  }

  // ---------------------------------------------------------------------
  // get_outgoing_webhook
  // ---------------------------------------------------------------------

  /** The first hook whose ID is `id`. */
  function FirstWithId(hooks: seq<Hook>, id: string): (r: Option<Hook>)
    ensures r.Some? ==> r.value in hooks && r.value.id == Some(id)
    ensures r.None? <==> forall k :: 0 <= k < |hooks| ==> hooks[k].id != Some(id)
  {
    if |hooks| == 0 then None
    else if hooks[0].id == Some(id) then Some(hooks[0])
    else FirstWithId(hooks[1..], id)
  }

  /** A hook whose ID comes before every other hook with that ID is the one found. */
  lemma {:induction false} FirstWithIdIsFirst(hooks: seq<Hook>, id: string, i: nat)
    requires i < |hooks| && hooks[i].id == Some(id)
    requires forall k :: 0 <= k < i ==> hooks[k].id != Some(id)
    ensures FirstWithId(hooks, id) == Some(hooks[i])
  {
    if i > 0 {
      FirstWithIdIsFirst(hooks[1..], id, i - 1);
    }
  }

  /**
   * The `foreach` with early return shared by `get_outgoing_webhook` and
   * `get_outgoing_webhook_setting`: the first hook whose ID is `id`.
   */
  method FindHook(hooks: seq<Hook>, id: string) returns (r: Option<Hook>)
    ensures r == FirstWithId(hooks, id)
  {
    var i := 0;
    while i < |hooks|
      invariant 0 <= i <= |hooks|
      invariant forall k :: 0 <= k < i ==> hooks[k].id != Some(id)
    {
      if hooks[i].id.Some? && hooks[i].id.value == id {
        FirstWithIdIsFirst(hooks, id, i);
        return Some(hooks[i]);
      }
      i := i + 1;
    }
    return None;
  }

  /** `get_outgoing_webhook($hook_id, $network)`: lookup by ID among all outgoing webhooks. */
  method OutgoingWebhook(siteHooks: seq<Hook>, networkHooks: seq<Hook>, networkActive: bool, id: string, network: bool)
    returns (r: Option<Hook>)
    ensures r == FirstWithId(AllOutgoingWebhooks(siteHooks, networkHooks, network, networkActive), id)
  {
    var all := AllOutgoingWebhooks(siteHooks, networkHooks, network, networkActive);
    if |all| == 0 {
      return None;
    }
    r := FindHook(all, id);
  }

  // ---------------------------------------------------------------------
  // unformat_slack_links
  // ---------------------------------------------------------------------

  predicate IsCharCI(c: char, lower: char, upper: char) {
    c == lower || c == upper
  }

  /**
   * Whether a Slack link `<http…>` starts at the front of `s` (the pattern
   * `<(http[^>]+)>`, case-insensitive): the index of its closing `>`.
   */
  function LinkEnd(s: string): (r: Option<nat>)
    ensures r.Some? ==> 5 < r.value < |s| && s[r.value] == '>' && '>' !in s[..r.value]
  {
    if |s| >= 6 && s[0] == '<' && IsCharCI(s[1], 'h', 'H') && IsCharCI(s[2], 't', 'T') &&
       IsCharCI(s[3], 't', 'T') && IsCharCI(s[4], 'p', 'P')
    then
      var j := 5 + Php.IndexOf(s[5..], '>');
      if 5 < j < |s| then
        assert forall k :: 0 <= k < j ==> s[k] != '>' by {
          assert forall k :: 5 <= k < j ==> s[k] == s[5..][k - 5];
        }
        Some(j)
      else None
    else None
  }

  /** `unformat_slack_links($text)`: each `<http…>` link is replaced by the text inside the brackets. */
  function UnformatSlackLinks(text: string): (r: string)
    ensures |r| <= |text|
    decreases |text|
  {
    if |text| == 0 then ""
    else
      match LinkEnd(text)
      case Some(j) => text[1..j] + UnformatSlackLinks(text[j + 1..])
      case None => [text[0]] + UnformatSlackLinks(text[1..])
  }

  /** A link as Slack wants it in a message: wrapped in angle brackets. */
  function FormatSlackLink(url: string): string {
    "<" + url + ">"
  }

  /** What counts as a link: `http` in any case, at least one more character, and no `>`. */
  predicate IsLink(url: string) {
    |url| > 4 && IsCharCI(url[0], 'h', 'H') && IsCharCI(url[1], 't', 'T') &&
    IsCharCI(url[2], 't', 'T') && IsCharCI(url[3], 'p', 'P') && '>' !in url
  }

  /** In a formatted link, `LinkEnd` stops at the bracket that closes it. */
  lemma LinkEndOfFormatted(url: string, rest: string)
    requires IsLink(url)
    ensures LinkEnd(FormatSlackLink(url) + rest) == Some(|url| + 1)
  {
    var s := FormatSlackLink(url) + rest;
    assert s[5..] == url[4..] + ['>'] + rest;
    assert '>' !in url[4..];
    Php.IndexOfAfterPiece(url[4..], '>', rest);
  }

  /** A formatted link is unwrapped, and the text after it is unformatted on its own. */
  lemma UnformatLink(url: string, rest: string)
    requires IsLink(url)
    ensures UnformatSlackLinks(FormatSlackLink(url) + rest) == url + UnformatSlackLinks(rest)
  {
    var s := FormatSlackLink(url) + rest;
    LinkEndOfFormatted(url, rest);
    assert s[1..|url| + 1] == url;
    assert s[|url| + 2..] == rest;
  }

  /** Any character that does not open a bracket is copied as it is. */
  lemma UnformatPlainChar(c: char, rest: string)
    requires c != '<'
    ensures UnformatSlackLinks([c] + rest) == [c] + UnformatSlackLinks(rest)
  {
    assert ([c] + rest)[1..] == rest;
  }

  /** Whether `s` starts with a Slack link `<url>`. */
  ghost predicate OpensLink(s: string) {
    exists url, rest :: IsLink(url) && s == FormatSlackLink(url) + rest
  }

  /** `LinkEnd` finds a link exactly when the text starts with one. */
  lemma LinkEndFindsLinks(s: string)
    ensures LinkEnd(s).Some? <==> OpensLink(s)
  {
    if LinkEnd(s).Some? {
      var j := LinkEnd(s).value;
      var url, rest := s[1..j], s[j + 1..];
      assert '>' !in url by {
        assert forall k :: 0 <= k < |url| ==> url[k] == s[..j][k + 1];
      }
      assert IsLink(url);
      assert s == FormatSlackLink(url) + rest;
    }
    if OpensLink(s) {
      var url, rest :| IsLink(url) && s == FormatSlackLink(url) + rest;
      LinkEndOfFormatted(url, rest);
    }
  }

  /** A `<` that opens no link (`a<b`, `<b>`, `<http>`, an unclosed `<http…`) is copied as it is. */
  lemma UnformatStrayBracket(text: string)
    requires |text| > 0 && text[0] == '<' && !OpensLink(text)
    ensures UnformatSlackLinks(text) == "<" + UnformatSlackLinks(text[1..])
  {
    LinkEndFindsLinks(text);
  }

  /** Text in which no position opens a link is left unchanged, brackets included. */
  lemma {:induction false} UnformatNoLinks(text: string)
    requires forall i :: 0 <= i < |text| ==> !OpensLink(text[i..])
    ensures UnformatSlackLinks(text) == text
    decreases |text|
  {
    if |text| > 0 {
      assert forall i :: 0 <= i < |text| - 1 ==> text[1..][i..] == text[i + 1..];
      UnformatNoLinks(text[1..]);
      assert text[0..] == text;
      LinkEndFindsLinks(text);
      assert [text[0]] + text[1..] == text;
    }
  }

  /** Text without a `<` is left unchanged. */
  lemma {:induction false} UnformatPlainText(text: string)
    requires '<' !in text
    ensures UnformatSlackLinks(text) == text
    decreases |text|
  {
    if |text| > 0 {
      UnformatPlainText(text[1..]);
      UnformatPlainChar(text[0], text[1..]);
      assert [text[0]] + text[1..] == text;
    }
  }
}
