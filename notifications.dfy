/**
 * The decision rules of the notification hooks (`Rock_The_Slackbot_Hooks`):
 * how a webhook's and an event's settings override the payload, which
 * notification event a post or comment status change raises, and the
 * guards and wording of the upgrade notification.
 */
module Notifications {
  import opened Wrappers
  import Php
  import opened Webhooks

  // ---------------------------------------------------------------------
  // prepare_payload
  // ---------------------------------------------------------------------

  /** One attachment of a Slack message, kept as its string fields. */
  datatype Attachment = Attachment(fields: map<string, string>)

  /** A Slack payload: its string keys (`text`, `channel`, ...) and its attachments. */
  datatype Payload = Payload(values: map<string, string>, attachments: Option<seq<Attachment>>)

  /** The payload keys a webhook or an event may set. */
  datatype Setting = Channel | Username | IconEmoji | IconUrl

  /** The settings in the order `prepare_payload` visits them. */
  const PayloadSettings: seq<Setting> := [Channel, Username, IconEmoji, IconUrl]

  function Position(s: Setting): (i: nat)
    ensures i < |PayloadSettings| && PayloadSettings[i] == s
  {
    match s
    case Channel => 0
    case Username => 1
    case IconEmoji => 2
    case IconUrl => 3
  }

  function Key(s: Setting): string {
    match s
    case Channel => "channel"
    case Username => "username"
    case IconEmoji => "icon_emoji"
    case IconUrl => "icon_url"
  }

  /** The payload keys `prepare_payload` may overwrite. */
  predicate IsSettingKey(k: string) {
    k == "channel" || k == "username" || k == "icon_emoji" || k == "icon_url"
  }

  function HookValue(h: Hook, s: Setting): Option<string> {
    match s
    case Channel => h.channel
    case Username => h.username
    case IconEmoji => h.iconEmoji
    case IconUrl => h.iconUrl
  }

  function EventValue(e: EventSetting, s: Setting): Option<string> {
    match s
    case Channel => e.channel
    case Username => e.username
    case IconEmoji => e.iconEmoji
    case IconUrl => e.iconUrl
  }

  function Lookup(m: map<string, string>, k: string): Option<string> {
    if k in m then Some(m[k]) else None
  }

  /**
   * The settings of the event being processed, when an event is given and
   * the webhook has non-empty settings for it.
   */
  function EventOverrides(webhook: Hook, event: Option<string>): (r: Option<EventSetting>)
    ensures r.Some? <==> Present(event) && event.value in webhook.events && !EventIsEmpty(webhook.events[event.value])
  {
    if Present(event) && event.value in webhook.events && !EventIsEmpty(webhook.events[event.value])
    then Some(webhook.events[event.value])
    else None
  }

  /** The value a payload key ends with: the event's, else the webhook's, else the payload's own. */
  function Chosen(payload: Payload, webhook: Hook, overrides: Option<EventSetting>, s: Setting): Option<string> {
    if overrides.Some? && Present(EventValue(overrides.value, s)) then EventValue(overrides.value, s)
    else if Present(HookValue(webhook, s)) then HookValue(webhook, s)
    else Lookup(payload.values, Key(s))
  }

  /**
   * `prepare_payload($payload, $attachments, $webhook, $event)`: for each of
   * channel, username, icon_emoji and icon_url, a non-empty webhook value
   * and then a non-empty event value overwrite the payload's; the
   * attachments are set; every other key passes through.
   */
  method PreparePayload(payload: Payload, attachments: seq<Attachment>, webhook: Hook, event: Option<string>)
    returns (r: Payload)
    ensures forall s :: Lookup(r.values, Key(s)) == Chosen(payload, webhook, EventOverrides(webhook, event), s)
    ensures forall k :: !IsSettingKey(k) ==> Lookup(r.values, k) == Lookup(payload.values, k)
    ensures r.attachments == Some(attachments)
  {
    var overrides: Option<EventSetting> := None;
    if event.Some? && !Php.EmptyString(event.value) && event.value in webhook.events &&
       !EventIsEmpty(webhook.events[event.value]) {
      overrides := Some(webhook.events[event.value]);
    }
    var values := payload.values;
    KeysAreDistinct();
    for i := 0 to |PayloadSettings|
      invariant forall s :: Position(s) < i ==> Lookup(values, Key(s)) == Chosen(payload, webhook, overrides, s)
      invariant forall s :: Position(s) >= i ==> Lookup(values, Key(s)) == Lookup(payload.values, Key(s))
      invariant forall k :: !IsSettingKey(k) ==> Lookup(values, k) == Lookup(payload.values, k)
    {
      var s := PayloadSettings[i];
      values := PrepareSetting(values, payload, webhook, overrides, s);
    }
    r := Payload(values, Some(attachments));
  }

  /** One turn of the loop: the webhook's value, then the event's, for one key. */
  method PrepareSetting(values: map<string, string>, payload: Payload, webhook: Hook, overrides: Option<EventSetting>, s: Setting)
    returns (r: map<string, string>)
    requires Lookup(values, Key(s)) == Lookup(payload.values, Key(s))
    ensures Lookup(r, Key(s)) == Chosen(payload, webhook, overrides, s)
    ensures forall k :: k != Key(s) ==> Lookup(r, k) == Lookup(values, k)
  {
    r := values;
    var own := HookValue(webhook, s);
    if own.Some? && !Php.EmptyString(own.value) {
      r := r[Key(s) := own.value];
    }
    if overrides.Some? {
      var ev := EventValue(overrides.value, s);
      if ev.Some? && !Php.EmptyString(ev.value) {
        r := r[Key(s) := ev.value];
      }
    }
  }

  /** Without a usable event, only the webhook's settings can override the payload. */
  lemma NoEventNoOverride(payload: Payload, webhook: Hook, event: Option<string>, s: Setting)
    requires !Present(event) || event.value !in webhook.events
    ensures Chosen(payload, webhook, EventOverrides(webhook, event), s) ==
      if Present(HookValue(webhook, s)) then HookValue(webhook, s) else Lookup(payload.values, Key(s))
  {
  }

  /** Whatever is chosen for a key is empty only when nothing set it. */
  lemma ChosenIsPresentIfAnySet(payload: Payload, webhook: Hook, overrides: Option<EventSetting>, s: Setting)
    requires Present(HookValue(webhook, s)) || (overrides.Some? && Present(EventValue(overrides.value, s)))
    ensures Present(Chosen(payload, webhook, overrides, s))
  {
  }

  /** Settings are distinct payload keys, so each is overridden independently. */
  lemma KeysAreDistinct()
    ensures forall s, t :: Key(s) == Key(t) ==> s == t
    ensures forall s :: IsSettingKey(Key(s))
  {
  }

  // ---------------------------------------------------------------------
  // transition_post_status_notification, transition_comment_status
  // ---------------------------------------------------------------------

  /**
   * The event a post status change raises, or None when the hook returns
   * early: the status did not change, the new status is auto-draft,
   * inherit or trash, or a draft was saved as a draft again.
   */
  function PostStatusEvent(newStatus: string, oldStatus: string): Option<string> {
    if newStatus == oldStatus then None
    else if newStatus == "auto-draft" || newStatus == "inherit" || newStatus == "trash" then None
    else if newStatus == "draft" then
      if oldStatus == "draft" || oldStatus == "auto-draft" || oldStatus == "inherit" then None
      else Some("post_draft")
    else if newStatus == "pending" then Some("post_pending")
    else if newStatus == "future" then Some("post_future")
    else if newStatus == "publish" then Some("post_published")
    else Some("post_unpublished")
  }

  /** The post status an event reports (any other new status reports `post_unpublished`). */
  function PostStatusOf(event: string): Option<string> {
    if event == "post_draft" then Some("draft")
    else if event == "post_pending" then Some("pending")
    else if event == "post_future" then Some("future")
    else if event == "post_published" then Some("publish")
    else None
  }

  /** Which status changes are silent. */
  lemma PostStatusSilentIff(newStatus: string, oldStatus: string)
    ensures PostStatusEvent(newStatus, oldStatus).None? <==>
      newStatus == oldStatus || newStatus in ["auto-draft", "inherit", "trash"] ||
      (newStatus == "draft" && oldStatus in ["draft", "auto-draft", "inherit"])
  {
  }

  /**
   * The event names the new status: the four named events come from their
   * own status, and `post_unpublished` from any status outside them.
   */
  lemma PostStatusEventNamesStatus(newStatus: string, oldStatus: string)
    requires PostStatusEvent(newStatus, oldStatus).Some?
    ensures var e := PostStatusEvent(newStatus, oldStatus).value;
      (PostStatusOf(e).Some? ==> PostStatusOf(e).value == newStatus) &&
      (PostStatusOf(e).None? <==> newStatus !in ["draft", "pending", "future", "publish"])
  {
  }

  /** The `switch` on the new comment status: the event, or "" for any other status. */
  function CommentStatusEvent(newStatus: string): string {
    if newStatus == "unapproved" then "comment_unapproved"
    else if newStatus == "approved" then "comment_approved"
    else if newStatus == "spam" then "comment_spammed"
    else if newStatus == "trash" then "comment_trashed"
    else ""
  }

  /**
   * The notification a comment status change sends, if any. An unchanged
   * status returns early; any other unknown status leaves the event and
   * the message empty, and the empty message returns early.
   */
  function CommentNotificationEvent(newStatus: string, oldStatus: string): Option<string> {
    if newStatus == oldStatus then None
    else if CommentStatusEvent(newStatus) == "" then None
    else Some(CommentStatusEvent(newStatus))
  }

  /** The comment status an event reports. */
  function CommentStatusOf(event: string): string {
    if event == "comment_unapproved" then "unapproved"
    else if event == "comment_approved" then "approved"
    else if event == "comment_spammed" then "spam"
    else if event == "comment_trashed" then "trash"
    else ""
  }

  /** A comment notification is sent exactly for a change into one of the four statuses, and its event names that status. */
  lemma CommentNotificationIff(newStatus: string, oldStatus: string)
    ensures CommentNotificationEvent(newStatus, oldStatus).Some? <==>
      newStatus != oldStatus && newStatus in ["unapproved", "approved", "spam", "trash"]
    ensures CommentNotificationEvent(newStatus, oldStatus).Some? ==>
      CommentStatusOf(CommentNotificationEvent(newStatus, oldStatus).value) == newStatus
  {
  }

  // ---------------------------------------------------------------------
  // upgrade_notification
  // ---------------------------------------------------------------------

  /** The `$upgrade_info` passed to the upgrader hook; `items` holds its `plugin`, `plugins`, `theme`, ... keys. */
  datatype UpgradeInfo = UpgradeInfo(
    action: Option<string>,
    kind: Option<string>,
    bulk: Option<int>,
    items: map<string, StringOrList>)

  predicate IsUpgradeType(t: string) {
    t == "core" || t == "plugin" || t == "theme"
  }

  /** The lower-cased upgrade type, when the action is an update of core, a plugin or a theme. */
  function UpgradeType(info: UpgradeInfo): (t: Option<string>)
    ensures t.Some? ==> IsUpgradeType(t.value)
  {
    if !(Present(info.action) && Php.ToLower(info.action.value) == "update") then None
    else if Present(info.kind) && IsUpgradeType(Php.ToLower(info.kind.value)) then Some(Php.ToLower(info.kind.value))
    else None
  }

  /** The notification event of an upgrade: `{type}_updated`. */
  function UpgradeEvent(info: UpgradeInfo): Option<string> {
    if UpgradeType(info).Some? then Some(UpgradeType(info).value + "_updated") else None
  }

  /** Only an update of core, a plugin or a theme raises an event, in any letter case. */
  lemma UpgradeEventIff(info: UpgradeInfo)
    ensures UpgradeEvent(info).Some? <==>
      Present(info.action) && Php.ToLower(info.action.value) == "update" &&
      Present(info.kind) && IsUpgradeType(Php.ToLower(info.kind.value))
    ensures UpgradeEvent(info).Some? ==>
      UpgradeEvent(info).value == Php.ToLower(info.kind.value) + "_updated"
    ensures UpgradeEvent(info).Some? ==>
      UpgradeEvent(info).value in ["core_updated", "plugin_updated", "theme_updated"]
  {
    if UpgradeType(info).Some? {
      var t := UpgradeType(info).value;
      assert "core" + "_updated" == "core_updated";
      assert "plugin" + "_updated" == "plugin_updated";
      assert "theme" + "_updated" == "theme_updated";
    }
  }

  /**
   * The number of upgraded items the message counts: the list under the
   * type's key (its plural for a bulk upgrade), a string split on commas;
   * a missing list is `explode` of `false`, one empty item.
   */
  function UpgradeItemCount(info: UpgradeInfo, t: string): (n: nat)
    ensures n >= 1
    ensures t == "core" ==> n == 1
  {
    var index := UpgradeItemKey(info, t);
    if t != "core" && index in info.items && !IsEmpty(info.items[index]) then |AsList(info.items[index])|
    else 1
  }

  /** The key of `$upgrade_info` holding the upgraded items: the type, or its plural for a bulk upgrade. */
  function UpgradeItemKey(info: UpgradeInfo, t: string): string {
    if info.bulk.Some? && info.bulk.value > 0 then t + "s" else t
  }

  /**
   * A plugin or theme upgrade counts the entries of a list under its key,
   * or one more than the commas of a string there; a missing or empty
   * entry is `explode` of `false`, one item.
   */
  lemma UpgradeItemCountOfList(info: UpgradeInfo, t: string)
    requires t != "core"
    ensures (UpgradeItemKey(info, t) in info.items && info.items[UpgradeItemKey(info, t)].Items? &&
             |info.items[UpgradeItemKey(info, t)].items| > 0) ==>
      UpgradeItemCount(info, t) == |info.items[UpgradeItemKey(info, t)].items|
    ensures (UpgradeItemKey(info, t) in info.items && info.items[UpgradeItemKey(info, t)].Text? &&
             !Php.EmptyString(info.items[UpgradeItemKey(info, t)].text)) ==>
      UpgradeItemCount(info, t) == Php.Occurrences(info.items[UpgradeItemKey(info, t)].text, ',') + 1
    ensures !(UpgradeItemKey(info, t) in info.items && !IsEmpty(info.items[UpgradeItemKey(info, t)])) ==>
      UpgradeItemCount(info, t) == 1
  {
    var index := UpgradeItemKey(info, t);
    if index in info.items && info.items[index].Text? {
      Php.ExplodeCount(info.items[index].text, ',');
    }
  }

  /**
   * The general message of an upgrade notification, built as the hook
   * builds it: what was updated, the versions for core, who updated it,
   * and the site.
   */
  function UpgradeMessage(t: string, count: nat, preVersion: Option<string>, wpVersion: string,
                          displayName: Option<string>, siteName: string, siteUrl: string): string
  {
    UpgradeLead(t, count, preVersion, wpVersion) + UpgradeCredit(displayName) + UpgradeSite(siteName, siteUrl)
  }

  /** " has" for core or a single item, "s have" (completing the plural) otherwise. */
  function UpgradeVerb(t: string, count: nat): string {
    if t == "core" || count == 1 then " has" else "s have"
  }

  function UpgradeLead(t: string, count: nat, preVersion: Option<string>, wpVersion: string): string {
    (if t == "core" then "WordPress " else "The following WordPress ") + t + UpgradeVerb(t, count) + " been updated" +
    (if t == "core" then UpgradeVersions(preVersion, wpVersion) else "")
  }

  /** For core: the version before the upgrade when it was recorded, and the new version. */
  function UpgradeVersions(preVersion: Option<string>, wpVersion: string): string {
    (if Present(preVersion) then " from version " + preVersion.value else "") + " to " + wpVersion
  }

  function UpgradeCredit(displayName: Option<string>): string {
    if Present(displayName) then " by " + displayName.value else ""
  }

  function UpgradeSite(siteName: string, siteUrl: string): string {
    " on the " + siteName + " website at <" + siteUrl + ">."
  }

  lemma PrefixOfAppend(a: string, b: string)
    ensures |a| <= |a + b| && (a + b)[..|a|] == a
  {
  }

  lemma SuffixOfAppend(a: string, b: string)
    ensures |b| <= |a + b| && (a + b)[|a + b| - |b|..] == b
  {
  }

  /** The message is its lead followed by the rest. */
  lemma UpgradeMessageSplits(t: string, count: nat, preVersion: Option<string>, wpVersion: string,
                             displayName: Option<string>, siteName: string, siteUrl: string)
    ensures UpgradeMessage(t, count, preVersion, wpVersion, displayName, siteName, siteUrl) ==
      UpgradeLead(t, count, preVersion, wpVersion) + (UpgradeCredit(displayName) + UpgradeSite(siteName, siteUrl))
  {
  }

  lemma PluginLead(t: string, count: nat, preVersion: Option<string>, wpVersion: string)
    requires t != "core"
    ensures UpgradeLead(t, count, preVersion, wpVersion) ==
      "The following WordPress " + t + (if count == 1 then " has" else "s have") + " been updated"
  {
    assert UpgradeLead(t, count, preVersion, wpVersion) ==
      "The following WordPress " + t + (if count == 1 then " has" else "s have") + " been updated" + "";
  }

  lemma CoreLead(count: nat, preVersion: Option<string>, wpVersion: string)
    ensures UpgradeLead("core", count, preVersion, wpVersion) ==
      "WordPress core has been updated" + UpgradeVersions(preVersion, wpVersion)
  {
    assert "WordPress " + "core" + " has" + " been updated" == "WordPress core has been updated";
  }

  /** Plugins and themes: "has" for exactly one item, "s have" otherwise. */
  lemma UpgradeMessageVerb(t: string, count: nat, preVersion: Option<string>, wpVersion: string,
                           displayName: Option<string>, siteName: string, siteUrl: string)
    requires t != "core"
    ensures Php.StartsWith(UpgradeMessage(t, count, preVersion, wpVersion, displayName, siteName, siteUrl),
      "The following WordPress " + t + (if count == 1 then " has" else "s have") + " been updated")
  {
    UpgradeMessageSplits(t, count, preVersion, wpVersion, displayName, siteName, siteUrl);
    PluginLead(t, count, preVersion, wpVersion);
    PrefixOfAppend(UpgradeLead(t, count, preVersion, wpVersion), UpgradeCredit(displayName) + UpgradeSite(siteName, siteUrl));
  }

  /** Core: "has", and the old version only when it was recorded before the upgrade. */
  lemma UpgradeMessageCore(count: nat, preVersion: Option<string>, wpVersion: string,
                           displayName: Option<string>, siteName: string, siteUrl: string)
    ensures Php.StartsWith(UpgradeMessage("core", count, preVersion, wpVersion, displayName, siteName, siteUrl),
      "WordPress core has been updated" + UpgradeVersions(preVersion, wpVersion))
  {
    UpgradeMessageSplits("core", count, preVersion, wpVersion, displayName, siteName, siteUrl);
    CoreLead(count, preVersion, wpVersion);
    PrefixOfAppend(UpgradeLead("core", count, preVersion, wpVersion), UpgradeCredit(displayName) + UpgradeSite(siteName, siteUrl));
  }

  /** Every upgrade message ends with the site, its URL wrapped as a Slack link. */
  lemma UpgradeMessageEndsWithSite(t: string, count: nat, preVersion: Option<string>, wpVersion: string,
                                   displayName: Option<string>, siteName: string, siteUrl: string)
    ensures var m := UpgradeMessage(t, count, preVersion, wpVersion, displayName, siteName, siteUrl);
      var tail := " on the " + siteName + " website at " + FormatSlackLink(siteUrl) + ".";
      |tail| <= |m| && m[|m| - |tail|..] == tail
  {
    var tail := UpgradeSite(siteName, siteUrl);
    assert tail == " on the " + siteName + " website at " + FormatSlackLink(siteUrl) + ".";
    SuffixOfAppend(UpgradeLead(t, count, preVersion, wpVersion) + UpgradeCredit(displayName), tail);
  }
}
