/** The message router of the embed widget, as values: the process-wide table of
    pending callbacks keyed by message id, the next id to hand out, and what one
    inbound message does to them. The classes in module Embed keep this state in
    place and are specified by the functions here. */
module Router {
  import opened Wrappers
  import opened Json
  import Decimal

  /** A JavaScript callback, known only by its identity; calling it is recorded as an Effect. */
  datatype Handler = Handler(ref: nat)

  /** `CALLBACKS`: message id to the callback passed with the request (None when the
      caller passed `undefined` or another falsy value). */
  type Table = map<nat, Option<Handler>>

  /** Which of the `onLoad` and `onURLChanged` options an instance was given. */
  datatype Hooks = Hooks(onLoad: bool, onUrlChanged: bool)

  /** The envelope `_sendMessage` serialises and posts to the frame. */
  datatype Envelope = Envelope(name: string, messageId: nat, message: Value)

  /** What one inbound message did: nothing, one branch of the listener, or one reply delivered. */
  datatype Effect =
    | Ignored
    | Resized(height: Value)
    | Loaded(notified: bool)
    | UrlChanged(url: Value, notified: bool)
    | Replied(id: nat, handler: Handler, message: Option<Value>)

  /** The name given to the instance created when the counter stood at `counter`. */
  function InstanceName(counter: nat): string {
    "tonic-embed-" + Decimal.Show(counter)
  }

  /** Every instance gets its own name, so a message is addressed to at most one instance. */
  lemma InstanceNamesDistinct(i: nat, j: nat)
    requires i != j
    ensures InstanceName(i) != InstanceName(j)
  {
    Decimal.ShowInjective(i, j);
    var p := "tonic-embed-";
    assert InstanceName(i)[|p|..] == Decimal.Show(i);
    assert InstanceName(j)[|p|..] == Decimal.Show(j);
  }

  /** `parsed && parsed.name === name`. */
  predicate AddressedTo(parsed: Option<Value>, name: string) {
    parsed.Some? && Get(parsed.value, "name") == Some(Str(name))
  }

  /** The id of a reply that names a pending entry holding a callback, if `m` carries one. */
  function PendingReply(table: Table, m: Value): (k: Option<nat>)
    ensures k.Some? ==> k.value in table && table[k.value].Some?
  {
    var mid := Get(m, "message_id");
    if Truthy(mid) && TableKey(mid.value).Some? then
      var k := TableKey(mid.value).value;
      if k in table && table[k].Some? then Some(k) else None
    else None
  }

  /** The message listener: the new callback table and the effect of one parsed inbound
      message (None when `JSON.parse` threw). Branches are tried in the order height,
      `"loaded"` event, url, reply, and at most one is taken. */
  function Dispatch(table: Table, name: string, parsed: Option<Value>, hooks: Hooks): (r: (Table, Effect))
    ensures r.1.Replied? ==> r.1.id in table && table[r.1.id] == Some(r.1.handler) && r.0 == table - {r.1.id}
    ensures !r.1.Replied? ==> r.0 == table
    ensures !AddressedTo(parsed, name) ==> r.1 == Ignored
    ensures r.1.Replied? ==> AddressedTo(parsed, name) && IsReplyShaped(parsed.value)
  {
    if !AddressedTo(parsed, name) then (table, Ignored)
    else
      var m := parsed.value;
      if Truthy(Get(m, "height")) then (table, Resized(Get(m, "height").value))
      else if Get(m, "event") == Some(Str("loaded")) then (table, Loaded(hooks.onLoad))
      else if Truthy(Get(m, "url")) then (table, UrlChanged(Get(m, "url").value, hooks.onUrlChanged))
      else match PendingReply(table, m)
        case Some(k) => (table - {k}, Replied(k, table[k].value, Get(m, "message")))
        case None => (table, Ignored)
  }

  /** Every instance's listener sees every message, but only the addressed instance acts on it. */
  lemma OtherInstancesIgnore(i: nat, j: nat, table: Table, parsed: Option<Value>, hooks: Hooks)
    requires i != j && AddressedTo(parsed, InstanceName(i))
    ensures Dispatch(table, InstanceName(j), parsed, hooks) == (table, Ignored)
  {
    InstanceNamesDistinct(i, j);
  }

  /** A message that is none of height, `"loaded"` or url: the kind a reply must be. */
  predicate IsReplyShaped(m: Value) {
    !Truthy(Get(m, "height")) && Get(m, "event") != Some(Str("loaded")) && !Truthy(Get(m, "url"))
  }

  /** A reply naming a pending id removes that entry and calls its callback with `message`. */
  lemma ReplyResolves(table: Table, name: string, m: Value, hooks: Hooks, id: nat, h: Handler)
    requires AddressedTo(Some(m), name) && IsReplyShaped(m)
    requires Get(m, "message_id") == Some(Num(id as real)) || Get(m, "message_id") == Some(Str(Decimal.Show(id)))
    requires id >= 1 && id in table && table[id] == Some(h)
    ensures Dispatch(table, name, Some(m), hooks) == (table - {id}, Replied(id, h, Get(m, "message")))
  {
    TableKeyIff(Get(m, "message_id").value, id);
  }

  /** Delivering the same reply again changes nothing and calls nothing. */
  lemma ReplyAtMostOnce(table: Table, name: string, parsed: Option<Value>, hooks: Hooks)
    ensures var (after, e) := Dispatch(table, name, parsed, hooks);
            e.Replied? ==> Dispatch(after, name, parsed, hooks) == (after, Ignored)
  {
  }

  /** A reply whose id names no pending callback changes nothing and calls nothing. */
  lemma UnknownIdIgnored(table: Table, name: string, m: Value, hooks: Hooks)
    requires IsReplyShaped(m)
    requires var mid := Get(m, "message_id");
             !Truthy(mid) || TableKey(mid.value).None? || TableKey(mid.value).value !in table ||
             table[TableKey(mid.value).value].None?
    ensures Dispatch(table, name, Some(m), hooks) == (table, Ignored)
  {
  }

  /** A message with a truthy height only resizes, even when it also carries a pending message id. */
  lemma HeightFirst(table: Table, name: string, m: Value, hooks: Hooks)
    requires AddressedTo(Some(m), name) && Truthy(Get(m, "height"))
    ensures Dispatch(table, name, Some(m), hooks) == (table, Resized(Get(m, "height").value))
  {
  }

  /** A `"loaded"` event without a truthy height reports the load, and calls `onLoad` when
      it was given, even when it also carries a pending message id; the table is kept. */
  lemma LoadedBeforeReply(table: Table, name: string, m: Value, hooks: Hooks)
    requires AddressedTo(Some(m), name) && !Truthy(Get(m, "height"))
    requires Get(m, "event") == Some(Str("loaded"))
    ensures Dispatch(table, name, Some(m), hooks) == (table, Loaded(hooks.onLoad))
  {
  }

  /** A truthy url, without a truthy height or a `"loaded"` event, reports the new URL and
      keeps the table, even when the message also carries a pending message id. */
  lemma UrlBeforeReply(table: Table, name: string, m: Value, hooks: Hooks)
    requires AddressedTo(Some(m), name) && !Truthy(Get(m, "height"))
    requires Get(m, "event") != Some(Str("loaded")) && Truthy(Get(m, "url"))
    ensures Dispatch(table, name, Some(m), hooks) == (table, UrlChanged(Get(m, "url").value, hooks.onUrlChanged))
  {
  }

  /** The router's process-wide state: `MESSAGE_ID` and `CALLBACKS`. */
  datatype State = State(nextId: nat, table: Table)

  /** Ids start at 1 and every pending id has already been handed out. */
  predicate Valid(s: State) {
    s.nextId >= 1 && forall id :: id in s.table ==> 1 <= id < s.nextId
  }

  /** The state before any message is sent. */
  const Initial := State(1, map[])

  /** `_sendMessage`'s bookkeeping: the id handed out is `s.nextId`, its callback is recorded under it. */
  function Send(s: State, callback: Option<Handler>): (r: State)
    ensures Valid(s) ==> Valid(r) && s.nextId !in s.table
    ensures r.nextId == s.nextId + 1
    ensures s.nextId in r.table && r.table[s.nextId] == callback
    ensures forall id :: id != s.nextId ==> (id in r.table <==> id in s.table)
    ensures forall id :: id in s.table && id != s.nextId ==> r.table[id] == s.table[id]
  {
    State(s.nextId + 1, s.table[s.nextId := callback])
  }

  /** What happens on the shared channel: a request from any instance, or a message delivered to one. */
  datatype Event =
    | Request(callback: Option<Handler>)
    | Inbound(name: string, parsed: Option<Value>, hooks: Hooks)

  /** The final state, the ids handed out in order, and the effects of the inbound messages in order. */
  datatype Trace = Trace(final: State, issued: seq<nat>, effects: seq<Effect>)

  function Run(s: State, events: seq<Event>): Trace
    decreases |events|
  {
    if events == [] then Trace(s, [], [])
    else match events[0]
      case Request(cb) =>
        var t := Run(Send(s, cb), events[1..]);
        Trace(t.final, [s.nextId] + t.issued, t.effects)
      case Inbound(name, parsed, hooks) =>
        var (table, e) := Dispatch(s.table, name, parsed, hooks);
        var t := Run(State(s.nextId, table), events[1..]);
        Trace(t.final, t.issued, [e] + t.effects)
  }

  /** Ids are handed out consecutively from `nextId`, shared by every instance, so they
      are strictly increasing; from the initial state they are 1, 2, 3, ... */
  lemma {:induction false} RunIssuesConsecutiveIds(s: State, events: seq<Event>)
    ensures var t := Run(s, events);
            t.final.nextId == s.nextId + |t.issued| &&
            forall i :: 0 <= i < |t.issued| ==> t.issued[i] == s.nextId + i
    decreases |events|
  {
    if events != [] {
      match events[0]
      case Request(cb) =>
        RunIssuesConsecutiveIds(Send(s, cb), events[1..]);
      case Inbound(name, parsed, hooks) =>
        var (table, e) := Dispatch(s.table, name, parsed, hooks);
        RunIssuesConsecutiveIds(State(s.nextId, table), events[1..]);
    }
  }

  /** The ids of the replies delivered, in order. */
  function RepliedIds(effects: seq<Effect>): seq<nat> {
    if effects == [] then []
    else if effects[0].Replied? then [effects[0].id] + RepliedIds(effects[1..])
    else RepliedIds(effects[1..])
  }

  /** What a trace `t` of a run from `s` guarantees about replies: the final state is
      valid, no id is replied to twice, and every reply is for an id that was pending at
      the start or handed out during the run, and never for one in `resolved`. */
  ghost predicate FreshReplies(s: State, t: Trace, resolved: set<nat>) {
    Valid(t.final) &&
    (forall i :: 0 <= i < |RepliedIds(t.effects)| ==>
       RepliedIds(t.effects)[i] !in resolved &&
       (RepliedIds(t.effects)[i] in s.table || RepliedIds(t.effects)[i] in t.issued)) &&
    (forall i, j :: 0 <= i < j < |RepliedIds(t.effects)| ==> RepliedIds(t.effects)[i] != RepliedIds(t.effects)[j])
  }

  /** One inbound message in front of a run keeps `FreshReplies`: a reply it resolves
      was pending, and the rest of the run treats that id as resolved. */
  lemma FreshRepliesInbound(s: State, table: Table, e: Effect, rest: Trace, resolved: set<nat>)
    requires forall g :: g in resolved ==> g !in s.table
    requires e.Replied? ==> e.id in s.table && table == s.table - {e.id}
    requires !e.Replied? ==> table == s.table
    requires FreshReplies(State(s.nextId, table), rest, if e.Replied? then resolved + {e.id} else resolved)
    ensures FreshReplies(s, Trace(rest.final, rest.issued, [e] + rest.effects), resolved)
  {
    var effects := [e] + rest.effects;
    assert effects[1..] == rest.effects;
    var later := RepliedIds(rest.effects);
    var ids := RepliedIds(effects);
    if e.Replied? {
      assert ids == [e.id] + later;
      forall i, j | 0 <= i < j < |ids| ensures ids[i] != ids[j] {
        assert ids[j] == later[j - 1];
        if i > 0 {
          assert ids[i] == later[i - 1];
        }
      }
    } else {
      assert ids == later;
    }
  }

  /** Valid states stay valid, and no id is replied to twice nor after it was already resolved. */
  lemma {:induction false} RunRepliesFresh(s: State, events: seq<Event>, resolved: set<nat>)
    requires Valid(s)
    requires forall g :: g in resolved ==> g < s.nextId && g !in s.table
    ensures FreshReplies(s, Run(s, events), resolved)
    decreases |events|
  {
    if events != [] {
      match events[0]
      case Request(cb) =>
        RunRepliesFresh(Send(s, cb), events[1..], resolved);
      case Inbound(name, parsed, hooks) =>
        var (table, e) := Dispatch(s.table, name, parsed, hooks);
        var resolved' := if e.Replied? then resolved + {e.id} else resolved;
        RunRepliesFresh(State(s.nextId, table), events[1..], resolved');
        FreshRepliesInbound(s, table, e, Run(State(s.nextId, table), events[1..]), resolved);
    }
  }

  /** From the initial state each request's callback is called at most once: the replied ids are distinct
      and each one was handed out by a request of the run. */
  lemma AtMostOnceFromStart(events: seq<Event>)
    ensures var t := Run(Initial, events);
            var ids := RepliedIds(t.effects);
            (forall i, j :: 0 <= i < j < |ids| ==> ids[i] != ids[j]) &&
            (forall i :: 0 <= i < |ids| ==> ids[i] in t.issued)
  {
    RunRepliesFresh(Initial, events, {});
  }
}
