/**
 * The chat server's Socket.IO handlers around its shared state (main.py): the
 * `online_users` registry (connection id -> display name, in dict insertion order),
 * the `messages` table as an append-only sequence of rows, and every `emit` as an
 * entry appended to an outbox. Each handler runs as one atomic step.
 */
module Server {
  import opened Wrappers
  import opened Names
  import opened Storage

  /** A Socket.IO connection id (`request.sid`). */
  type Sid = string

  /** The author recorded for a connection that is not registered ("unknown user"). */
  const UnknownUser: string := "未知用户"
  /** The private error text sent when a chat message could not be handled ("message send failed"). */
  const SendFailed: string := "消息发送失败"

  /** The event payload a client sent: a JSON object, or anything else (on which `data.get` raises). */
  datatype Payload = Object(fields: map<string, string>) | NotObject

  /** `data.get(key, '')`. */
  function Get(fields: map<string, string>, key: string): (value: string)
    ensures key in fields ==> value == fields[key]
    ensures key !in fields ==> value == ""
  {
    if key in fields then fields[key] else ""
  }

  /** `online_users.get(request.sid, "未知用户")`. */
  function Author(users: map<Sid, string>, sid: Sid): (name: string)
    ensures sid in users ==> name == users[sid]
    ensures sid !in users ==> name == UnknownUser
  {
    if sid in users then users[sid] else UnknownUser
  }

  /** The events the client script listens for. */
  datatype Event =
    | UserJoined(username: string)
    | UserLeft(username: string)
    | UpdateUsers(users: seq<string>)
    | ChatMessage(username: string, message: string, timestamp: string)
    | ErrorNotice(message: string)

  /** `emit(..., broadcast=True)` reaches every connection; a plain `emit` only the sender. */
  datatype Outbound = Broadcast(event: Event) | Send(to: Sid, event: Event)

  predicate NoDup<T(==)>(xs: seq<T>)
  {
    forall i, j :: 0 <= i < j < |xs| ==> xs[i] != xs[j]
  }

  /** `order` lists the registry's keys, each once: the insertion order a Python dict keeps. */
  ghost predicate KeysInOrder(order: seq<Sid>, users: map<Sid, string>)
  {
    NoDup(order) && forall s :: s in order <==> s in users
  }

  /** `list(online_users.values())`: the names in the keys' insertion order. */
  function RosterOf(order: seq<Sid>, users: map<Sid, string>): (names: seq<string>)
    requires forall s :: s in order ==> s in users
    ensures |names| == |order|
    ensures forall k :: 0 <= k < |order| ==> names[k] == users[order[k]]
  {
    if order == [] then [] else RosterOf(order[..|order| - 1], users) + [users[order[|order| - 1]]]
  }

  /** A list without repeated elements has as many elements as its set. */
  lemma {:induction false} DistinctCount(order: seq<Sid>)
    requires NoDup(order)
    ensures |(set s | s in order)| == |order|
  {
    if order != [] {
      var init := order[..|order| - 1];
      var last := order[|order| - 1];
      assert NoDup(init);
      DistinctCount(init);
      assert (set s | s in order) == (set s | s in init) + {last};
      assert last !in (set s | s in init);
    }
  }

  /** The roster holds exactly the registered names, one entry per connection. */
  lemma RosterMatchesUsers(order: seq<Sid>, users: map<Sid, string>)
    requires KeysInOrder(order, users)
    ensures forall x :: x in RosterOf(order, users) <==> x in users.Values
    ensures |RosterOf(order, users)| == |users|
  {
    var names := RosterOf(order, users);
    forall x | x in users.Values ensures x in names {
      var s :| s in users && users[s] == x;
      var k :| 0 <= k < |order| && order[k] == s;
      assert names[k] == x;
    }
    DistinctCount(order);
    assert (set s | s in order) == users.Keys;
  }

  /** A connection seen for the first time goes to the end of the roster. */
  lemma RosterAppend(order: seq<Sid>, users: map<Sid, string>, sid: Sid, name: string)
    requires forall s :: s in order ==> s in users
    requires sid !in order
    ensures RosterOf(order + [sid], users[sid := name]) == RosterOf(order, users) + [name]
  {
    var a := RosterOf(order + [sid], users[sid := name]);
    var b := RosterOf(order, users) + [name];
    assert |a| == |b|;
    forall k | 0 <= k < |a| ensures a[k] == b[k] {
      if k < |order| { assert (order + [sid])[k] == order[k]; }
    }
  }

  /**
   * `order` with `sid` taken out and everything else kept in place: an absent key leaves the order
   * as it is, and a key held once is cut out of its position, the keys around it keeping their order.
   */
  function Without(order: seq<Sid>, sid: Sid): (r: seq<Sid>)
    ensures forall s :: s in r <==> s in order && s != sid
    ensures NoDup(order) ==> NoDup(r)
    ensures sid !in order ==> r == order
    ensures NoDup(order) ==> forall k :: 0 <= k < |order| && order[k] == sid ==> r == order[..k] + order[k + 1..]
  {
    if order == [] then []
    else
      var init := order[..|order| - 1];
      var last := order[|order| - 1];
      var rest := Without(init, sid);
      var r := rest + (if last == sid then [] else [last]);
      assert order == init + [last];
      assert NoDup(order) ==> NoDup(init) && last !in init;
      if NoDup(order) then WithoutStep(init, last, sid, rest); r else r
  }

  /** The step of Without's order proof: cutting `sid` from `init` and then appending `last`. */
  lemma WithoutStep(init: seq<Sid>, last: Sid, sid: Sid, rest: seq<Sid>)
    requires NoDup(init + [last])
    requires sid !in init ==> rest == init
    requires forall k :: 0 <= k < |init| && init[k] == sid ==> rest == init[..k] + init[k + 1..]
    ensures var order, r := init + [last], rest + (if last == sid then [] else [last]);
      forall k :: 0 <= k < |order| && order[k] == sid ==> r == order[..k] + order[k + 1..]
  {
    var order, r := init + [last], rest + (if last == sid then [] else [last]);
    forall k | 0 <= k < |order| && order[k] == sid ensures r == order[..k] + order[k + 1..] {
      if k == |init| {
        assert forall j :: 0 <= j < |init| ==> init[j] == order[j] != order[k];
        assert order[..k] == init && order[k + 1..] == [];
      } else {
        assert order[k] == init[k] && order[|init|] == last;
        assert init[k] == sid && last != sid;
        assert order[..k] == init[..k];
        assert order[k + 1..] == init[k + 1..] + [last];
      }
    }
  }

  /** No two registered connections share a display name. */
  ghost predicate Unique(users: map<Sid, string>)
  {
    forall a, b :: a in users && b in users && a != b ==> users[a] != users[b]
  }

  /** Registering a name nobody holds keeps the names unique. */
  lemma UniqueInsert(users: map<Sid, string>, sid: Sid, name: string)
    requires Unique(users) && name !in users.Values
    ensures Unique(users[sid := name])
  {
    var m := users[sid := name];
    forall a, b | a in m && b in m && a != b ensures m[a] != m[b] {
      if a == sid { assert m[b] == users[b]; }
      else if b == sid { assert m[a] == users[a]; }
    }
  }

  /** Inserting a key keeps the order list in step with the registry. */
  lemma KeysInOrderInsert(order: seq<Sid>, users: map<Sid, string>, sid: Sid, name: string)
    requires KeysInOrder(order, users)
    ensures KeysInOrder(if sid in users then order else order + [sid], users[sid := name])
  {
  }

  predicate IsMessageBroadcast(o: Outbound)
  {
    o.Broadcast? && o.event.ChatMessage?
  }

  /** The `message` broadcasts of an outbox, in emission order. */
  function Published(outbox: seq<Outbound>): (events: seq<Event>)
    ensures forall k :: 0 <= k < |events| ==> events[k].ChatMessage?
  {
    if outbox == [] then []
    else
      var last := outbox[|outbox| - 1];
      Published(outbox[..|outbox| - 1]) + (if IsMessageBroadcast(last) then [last.event] else [])
  }

  lemma PublishedAppend(outbox: seq<Outbound>, o: Outbound)
    ensures Published(outbox + [o]) == Published(outbox) + (if IsMessageBroadcast(o) then [o.event] else [])
  {
    assert (outbox + [o])[..|outbox|] == outbox;
  }

  /**
   * Persist before broadcast, over a whole run: the k-th `message` broadcast carries the author
   * of the k-th row inserted, and the rendering of that row's raw text.
   */
  ghost predicate EachBroadcastPersisted(events: seq<Event>, rows: seq<Record>,
                                         render: string -> string, renderPlain: string -> string)
  {
    && |events| == |rows|
    && forall k :: 0 <= k < |events| ==>
      && events[k].ChatMessage?
      && events[k].username == rows[k].username
      && (events[k].message == render(rows[k].message) || events[k].message == renderPlain(rows[k].message))
  }

  /** Recording one more row together with its broadcast keeps the pairing. */
  lemma PersistedExtend(events: seq<Event>, rows: seq<Record>, e: Event, row: Record,
                        render: string -> string, renderPlain: string -> string)
    requires EachBroadcastPersisted(events, rows, render, renderPlain)
    requires e.ChatMessage? && e.username == row.username
    requires e.message == render(row.message) || e.message == renderPlain(row.message)
    ensures EachBroadcastPersisted(events + [e], rows + [row], render, renderPlain)
  {
  }

  class ChatServer {
    /** `convert_markdown`, the renderer with extensions used for chat messages and history. */
    const render: string -> string
    /** `markdown.markdown` with default options, used for image messages. */
    const renderPlain: string -> string
    /** Rows the table held when the server started. */
    const preexisting: nat

    /** `online_users`. */
    var onlineUsers: map<Sid, string>
    /** The keys of `online_users` in insertion order. */
    var joinOrder: seq<Sid>
    /** The `messages` table in insertion (id) order. */
    var messages: seq<Record>
    /** Every event emitted so far. */
    var outbox: seq<Outbound>

    ghost predicate Valid()
      reads this
    {
      && KeysInOrder(joinOrder, onlineUsers)
      && preexisting <= |messages|
      && EachBroadcastPersisted(Published(outbox), messages[preexisting..], render, renderPlain)
    }

    /** The roster the `update_users` event carries: the registered names, one per connection. */
    function Roster(): (users: seq<string>)
      reads this
      requires Valid()
      ensures forall x :: x in users <==> x in onlineUsers.Values
      ensures |users| == |onlineUsers|
    {
      RosterMatchesUsers(joinOrder, onlineUsers);
      RosterOf(joinOrder, onlineUsers)
    }

    /** The server at start-up: nobody online, nothing emitted, the table as left by earlier runs. */
    constructor (table: seq<Record>, render: string -> string, renderPlain: string -> string)
      ensures Valid()
      ensures onlineUsers == map[] && joinOrder == [] && outbox == []
      ensures messages == table && preexisting == |table|
      ensures this.render == render && this.renderPlain == renderPlain
    {
      this.render := render;
      this.renderPlain := renderPlain;
      preexisting := |table|;
      onlineUsers := map[];
      joinOrder := [];
      messages := table;
      outbox := [];
    }

    /** Adds the two broadcasts that follow a registry change; no `message` broadcast is among them. */
    method EmitPresence(first: Event)
      requires !first.ChatMessage?
      requires Valid()
      modifies this`outbox
      ensures Valid()
      ensures outbox == old(outbox) + [Broadcast(first), Broadcast(UpdateUsers(Roster()))]
    {
      var users := Roster();
      PublishedAppend(outbox, Broadcast(first));
      PublishedAppend(outbox + [Broadcast(first)], Broadcast(UpdateUsers(users)));
      assert outbox + [Broadcast(first)] + [Broadcast(UpdateUsers(users))]
          == outbox + [Broadcast(first), Broadcast(UpdateUsers(users))];
      outbox := outbox + [Broadcast(first), Broadcast(UpdateUsers(users))];
    }

    /** `online_users[request.sid] = username`: a new key goes to the end of the dict's order. */
    method Register(sid: Sid, username: string)
      requires Valid()
      modifies this`onlineUsers, this`joinOrder
      ensures Valid()
      ensures onlineUsers == old(onlineUsers)[sid := username]
      ensures sid !in old(onlineUsers) ==> joinOrder == old(joinOrder) + [sid]
      ensures sid !in old(onlineUsers) ==> Roster() == old(Roster()) + [username]
      ensures sid in old(onlineUsers) ==> joinOrder == old(joinOrder)
    {
      KeysInOrderInsert(joinOrder, onlineUsers, sid, username);
      if sid !in onlineUsers {
        RosterAppend(joinOrder, onlineUsers, sid, username);
        joinOrder := joinOrder + [sid];
      }
      onlineUsers := onlineUsers[sid := username];
    }

    /**
     * `handle_connect`: picks a name against the names in use, registers the connection under it
     * and broadcasts `user_joined` and then the roster as it stands after the insertion.
     */
    method HandleConnect(sid: Sid, namesFile: Option<seq<string>>)
      requires Valid()
      modifies this
      ensures Valid()
      ensures sid in onlineUsers && onlineUsers == old(onlineUsers)[sid := onlineUsers[sid]]
      ensures var offered := CandidatesFor(namesFile, old(onlineUsers.Values));
        if offered != [] then onlineUsers[sid] in offered && onlineUsers[sid] !in old(onlineUsers.Values)
        else IsGuestName(onlineUsers[sid])
      ensures sid !in old(onlineUsers) ==> joinOrder == old(joinOrder) + [sid]
      ensures sid !in old(onlineUsers) ==> Roster() == old(Roster()) + [onlineUsers[sid]]
      ensures sid in old(onlineUsers) ==> joinOrder == old(joinOrder)
      ensures outbox == old(outbox) + [Broadcast(UserJoined(onlineUsers[sid])), Broadcast(UpdateUsers(Roster()))]
      ensures messages == old(messages)
      ensures old(Unique(onlineUsers)) && CandidatesFor(namesFile, old(onlineUsers.Values)) != [] ==> Unique(onlineUsers)
    {
      var username := GetRandomName(namesFile, onlineUsers.Values);
      Join(sid, username);
    }

    /**
     * The part of `handle_connect` after the name is chosen: the connection is registered under it,
     * and `user_joined` and then the roster are broadcast.
     */
    method Join(sid: Sid, username: string)
      requires Valid()
      modifies this
      ensures Valid()
      ensures onlineUsers == old(onlineUsers)[sid := username]
      ensures sid !in old(onlineUsers) ==> joinOrder == old(joinOrder) + [sid]
      ensures sid !in old(onlineUsers) ==> Roster() == old(Roster()) + [username]
      ensures sid in old(onlineUsers) ==> joinOrder == old(joinOrder)
      ensures outbox == old(outbox) + [Broadcast(UserJoined(username)), Broadcast(UpdateUsers(Roster()))]
      ensures messages == old(messages)
      ensures old(Unique(onlineUsers)) && username !in old(onlineUsers.Values) ==> Unique(onlineUsers)
    {
      if Unique(onlineUsers) && username !in onlineUsers.Values {
        UniqueInsert(onlineUsers, sid, username);
      }
      Register(sid, username);
      EmitPresence(UserJoined(username));
    }

    /**
     * `handle_disconnect`: a registered connection is removed and `user_left` and the new roster are
     * broadcast; for a connection not registered (say, a second disconnect) nothing changes and
     * nothing is emitted.
     */
    method HandleDisconnect(sid: Sid)
      requires Valid()
      modifies this
      ensures Valid()
      ensures sid !in onlineUsers
      ensures sid in old(onlineUsers) ==>
        && onlineUsers == old(onlineUsers) - {sid}
        && joinOrder == Without(old(joinOrder), sid)
        && outbox == old(outbox) + [Broadcast(UserLeft(old(onlineUsers)[sid])), Broadcast(UpdateUsers(Roster()))]
        && messages == old(messages)
      ensures sid !in old(onlineUsers) ==> unchanged(this)
      ensures old(Unique(onlineUsers)) ==> Unique(onlineUsers)
    {
      if sid in onlineUsers {
        var username := onlineUsers[sid];
        Unregister(sid);
        EmitPresence(UserLeft(username));
      }
    }

    /** `online_users.pop(request.sid)`: the key leaves the dict and its place in the order. */
    method Unregister(sid: Sid)
      requires Valid() && sid in onlineUsers
      modifies this`onlineUsers, this`joinOrder
      ensures Valid()
      ensures onlineUsers == old(onlineUsers) - {sid}
      ensures joinOrder == Without(old(joinOrder), sid)
      ensures old(Unique(onlineUsers)) ==> Unique(onlineUsers)
    {
      onlineUsers := onlineUsers - {sid};
      joinOrder := Without(joinOrder, sid);
    }

    /** Appends one event that is not a `message` broadcast. */
    method EmitPrivate(to: Sid, e: Event)
      requires Valid()
      modifies this`outbox
      ensures Valid()
      ensures outbox == old(outbox) + [Send(to, e)]
    {
      PublishedAppend(outbox, Send(to, e));
      outbox := outbox + [Send(to, e)];
    }

    /** Inserts a row and then broadcasts its rendering: the one way a `message` broadcast arises. */
    method PersistThenBroadcast(username: string, raw: string, html: string, dbTime: string, now: string)
      requires Valid()
      requires html == render(raw) || html == renderPlain(raw)
      modifies this`messages, this`outbox
      ensures Valid()
      ensures messages == old(messages) + [Record(username, raw, dbTime)]
      ensures outbox == old(outbox) + [Broadcast(ChatMessage(username, html, now))]
    {
      var row := Record(username, raw, dbTime);
      var sent := Broadcast(ChatMessage(username, html, now));
      assert (messages + [row])[preexisting..] == messages[preexisting..] + [row];
      PublishedAppend(outbox, sent);
      PersistedExtend(Published(outbox), messages[preexisting..], sent.event, row, render, renderPlain);
      messages := messages + [row];
      outbox := outbox + [sent];
    }

    /**
     * `handle_message`: the author is the sender's registered name or "未知用户"; the raw text is
     * inserted and committed (`dbOk`), and only then is its rendering broadcast. When the payload is
     * not an object or the database step raises, the sender alone gets one `error` event, nothing
     * is stored and nothing is broadcast.
     */
    method HandleMessage(sid: Sid, data: Payload, dbOk: bool, dbTime: string, now: string)
      requires Valid()
      modifies this
      ensures Valid()
      ensures onlineUsers == old(onlineUsers) && joinOrder == old(joinOrder)
      ensures var author := Author(old(onlineUsers), sid);
        if data.Object? && dbOk then
          var text := Get(data.fields, "message");
          && messages == old(messages) + [Record(author, text, dbTime)]
          && outbox == old(outbox) + [Broadcast(ChatMessage(author, render(text), now))]
        else
          && messages == old(messages)
          && outbox == old(outbox) + [Send(sid, ErrorNotice(SendFailed))]
    {
      var username := Author(onlineUsers, sid);
      if data.NotObject? {
        EmitPrivate(sid, ErrorNotice(SendFailed));
        return;
      }
      var message := Get(data.fields, "message");
      var htmlMessage := render(message);
      if !dbOk {
        EmitPrivate(sid, ErrorNotice(SendFailed));
        return;
      }
      PersistThenBroadcast(username, message, htmlMessage, dbTime, now);
    }

    /**
     * `handle_image_message`: stores `![图片](url)` and broadcasts its plain-markdown rendering.
     * The handler has no `try`: when the payload is not an object or the database step raises,
     * the exception leaves the handler (`raised`) before anything is stored or emitted.
     */
    method HandleImageMessage(sid: Sid, data: Payload, dbOk: bool, dbTime: string, now: string)
      returns (raised: bool)
      requires Valid()
      modifies this
      ensures Valid()
      ensures raised <==> !(data.Object? && dbOk)
      ensures raised ==> unchanged(this)
      ensures !raised ==>
        var author := Author(old(onlineUsers), sid);
        var markup := ImageMarkup(Get(data.fields, "url"));
        && onlineUsers == old(onlineUsers) && joinOrder == old(joinOrder)
        && messages == old(messages) + [Record(author, markup, dbTime)]
        && outbox == old(outbox) + [Broadcast(ChatMessage(author, renderPlain(markup), now))]
    {
      var username := Author(onlineUsers, sid);
      if data.NotObject? {
        return true;
      }
      var imageUrl := Get(data.fields, "url");
      var message := ImageMarkup(imageUrl);
      if !dbOk {
        return true;
      }
      PersistThenBroadcast(username, message, renderPlain(message), dbTime, now);
      raised := false;
    }

    /** The `/history` response over the current table. */
    function History(): (entries: seq<HistoryEntry>)
      reads this
      ensures |entries| <= HistoryLimit
      ensures entries == RenderRows(messages[|messages| - Min(HistoryLimit, |messages|)..], render)
    {
      GetHistory(messages, render)
    }
  }

  /** The base-name file holding only "Alex" yields the single name "Alex". */
  lemma LoadSingleName()
    ensures LoadNames(["Alex"]) == ["Alex"]
  {
    var lines: seq<string> := ["Alex"];
    assert lines[..0] == [];
    assert !Text.IsSpace(Text.Python, 'A') && !Text.IsSpace(Text.Python, 'x');
    Text.StripUnchanged(Text.Python, "Alex");
  }

  /** Over that file, the first user is offered "Alex". */
  lemma SingleNameFileFirstCandidate()
    ensures CandidatesFor(Some(["Alex"]), {}) == ["Alex"]
  {
    LoadSingleName();
    var names: seq<string> := ["Alex"];
    assert names[..0] == [];
    assert Candidates(names, {}) == Candidates([], {}) + Contribution("Alex", {});
  }

  /** While "Alex" is online, the next user is offered only "Alex2". */
  lemma SingleNameFileSecondCandidate()
    ensures CandidatesFor(Some(["Alex"]), {"Alex"}) == ["Alex2"]
  {
    LoadSingleName();
    SingleNamePoolOffersSuffix();
  }

  lemma SingletonValues(sid: Sid, name: string)
    ensures map[sid := name].Values == {name}
  {
    assert map[sid := name][sid] == name;
  }

  lemma RemoveFromPair(a: Sid, b: Sid, x: string, y: string)
    requires a != b
    ensures map[a := x][b := y] - {a} == map[b := y]
  {
    var m := map[a := x][b := y] - {a};
    assert m.Keys == {b};
  }

  /** Over that file, A and then B connect to a fresh server: A is "Alex" and B is "Alex2". */
  method JoinTwoUsers(render: string -> string, renderPlain: string -> string) returns (server: ChatServer)
    ensures fresh(server) && server.Valid()
    ensures server.onlineUsers == map["A" := "Alex"]["B" := "Alex2"]
    ensures server.messages == [] && server.preexisting == 0 && server.render == render
  {
    var namesFile := Some(["Alex"]);
    SingleNameFileFirstCandidate();
    SingleNameFileSecondCandidate();
    server := new ChatServer([], render, renderPlain);
    server.HandleConnect("A", namesFile);
    assert server.onlineUsers == map["A" := "Alex"];
    SingletonValues("A", "Alex");
    server.HandleConnect("B", namesFile);
  }

  /**
   * A run over a names file with the single base name "Alex": A connects and is "Alex", B connects
   * and is "Alex2", B's message is stored under "Alex2" and broadcast, A leaves and the roster is
   * ["Alex2"]; A's second disconnect changes nothing.
   */
  method TwoUserSession(render: string -> string, renderPlain: string -> string, now: string)
    returns (roster: seq<string>, stored: seq<Record>)
    ensures roster == ["Alex2"]
    ensures stored == [Record("Alex2", "hello", now)]
  {
    var server := JoinTwoUsers(render, renderPlain);
    server.HandleMessage("B", Object(map["message" := "hello"]), true, now, now);
    server.HandleDisconnect("A");
    RemoveFromPair("A", "B", "Alex", "Alex2");
    ghost var afterFirst := server.onlineUsers;
    server.HandleDisconnect("A");
    assert server.onlineUsers == afterFirst == map["B" := "Alex2"];
    roster := server.Roster();
    SingletonValues("B", "Alex2");
    assert roster == ["Alex2"] by {
      assert |roster| == 1 && roster[0] in server.onlineUsers.Values;
    }
    stored := server.messages;
  }
}
