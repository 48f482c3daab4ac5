/** The server's shared state and its request handlers.

    One `Hub` holds what the server keeps in module-level variables: the
    stored talks, the change log, and the parked long-poll requests. Every
    handler call stands for one HTTP request; the hub numbers requests in
    arrival order, and every answer the server writes is appended to
    `responses`, tagged with the number of the request it answers. A
    90-second timer firing is the separate event `Timeout`. The clock is an
    argument `now` that never goes backwards. */
module Server {
  import opened Talks
  import opened Ledger

  datatype Option<T> = None | Some(value: T)

  /** A JSON value, as far as the handlers inspect it: a string, or anything else. */
  datatype Json = JString(s: string) | JOther

  /** The outcome of reading and parsing a request body: an error with its
      message, or a parsed value, which is either an object (its own
      properties) or something that is not an object. */
  datatype Body = Unreadable(error: string) | Parsed(doc: Option<map<string, Json>>)

  /** The `changesSince` query parameter: absent, a number, or not a number. */
  datatype Query = AllTalks | ChangesSince(since: int) | NotANumber

  /** What a response carries. */
  datatype Payload =
    | NoContent
    | Text(message: string)
    | OneTalk(talk: Talk)
    | TalkList(serverTime: int, talks: seq<Entry>)

  /** One response, written to the request numbered `request`. */
  datatype Response = Response(request: nat, status: int, payload: Payload)

  /** A parked long-poll request and its cursor. */
  datatype Waiter = Waiter(request: nat, since: int)

  /** The value of property `name` of a parsed body when it is a string. */
  function StringField(doc: Option<map<string, Json>>, name: string): (v: Option<string>)
    ensures v.Some? <==> doc.Some? && name in doc.value && doc.value[name].JString?
    ensures v.Some? ==> doc.value[name] == JString(v.value)
  {
    if doc.Some? && name in doc.value && doc.value[name].JString? then Some(doc.value[name].s) else None
  }

  function NotFoundMessage(title: string): string {
    "No talk '" + title + "' found"
  }

  /** The answers a change sends to the waiters `ws`, each computed from the
      log and the talks as they are after the change. */
  function Wakeups(ws: seq<Waiter>, cs: seq<Change>, talks: map<string, Talk>, now: int): (r: seq<Response>)
    ensures ws == [] ==> r == []
  {
    seq(|ws|, k requires 0 <= k < |ws| => Response(ws[k].request, 200, TalkList(now, ChangedTalks(cs, talks, ws[k].since))))
  }

  /** Each waiter gets a 200 answer stamped `now`, and that answer is empty
      exactly when the newest log entry is not newer than the waiter's cursor,
      which includes a change made in the tick the cursor names. */
  lemma WakeupsAnswers(ws: seq<Waiter>, cs: seq<Change>, talks: map<string, Talk>, now: int, k: nat)
    requires k < |ws|
    ensures |Wakeups(ws, cs, talks, now)| == |ws|
    ensures Wakeups(ws, cs, talks, now)[k].request == ws[k].request
    ensures Wakeups(ws, cs, talks, now)[k].status == 200
    ensures Wakeups(ws, cs, talks, now)[k].payload.TalkList? && Wakeups(ws, cs, talks, now)[k].payload.serverTime == now
    ensures Wakeups(ws, cs, talks, now)[k].payload.talks == [] <==> |cs| == 0 || cs[|cs| - 1].time <= ws[k].since
  {
  }

  function Lives(list: seq<Talk>): seq<Entry> {
    seq(|list|, k requires 0 <= k < |list| => Live(list[k]))
  }

  /** The requests a response log has answered. */
  ghost function Requests(rs: seq<Response>): set<nat> {
    set r | r in rs :: r.request
  }

  /** The requests a waiter list holds. */
  ghost function Parked(ws: seq<Waiter>): set<nat> {
    set w | w in ws :: w.request
  }

  /** No request is answered twice. */
  ghost predicate AnsweredOnce(rs: seq<Response>) {
    forall i, j :: 0 <= i < j < |rs| ==> rs[i].request != rs[j].request
  }

  /** No request is parked twice. */
  ghost predicate ParkedOnce(ws: seq<Waiter>) {
    forall i, j :: 0 <= i < j < |ws| ==> ws[i].request != ws[j].request
  }

  /** Waking distinct parked requests that have no answer yet answers each of
      them once and answers nothing else. */
  lemma WakeupsAnswerParked(rs: seq<Response>, ws: seq<Waiter>, cs: seq<Change>, talks: map<string, Talk>, now: int)
    requires AnsweredOnce(rs) && ParkedOnce(ws) && Parked(ws) !! Requests(rs)
    ensures AnsweredOnce(rs + Wakeups(ws, cs, talks, now))
    ensures Requests(rs + Wakeups(ws, cs, talks, now)) == Requests(rs) + Parked(ws)
  {
    var wk := Wakeups(ws, cs, talks, now);
    var all := rs + wk;
    forall i, j | 0 <= i < j < |all| ensures all[i].request != all[j].request {
      if j >= |rs| {
        assert all[j] == wk[j - |rs|];
        assert ws[j - |rs|] in ws;
        assert all[j].request in Parked(ws);
        if i >= |rs| {
          assert all[i] == wk[i - |rs|];
        } else {
          assert all[i] == rs[i];
          assert all[i].request in Requests(rs);
        }
      } else {
        assert all[i] == rs[i] && all[j] == rs[j];
      }
    }
    forall id | id in Requests(all) ensures id in Requests(rs) + Parked(ws) {
      var r :| r in all && r.request == id;
      var k :| 0 <= k < |all| && all[k] == r;
      if k >= |rs| {
        assert all[k] == wk[k - |rs|];
        assert ws[k - |rs|] in ws;
      }
    }
    forall id | id in Parked(ws) ensures id in Requests(all) {
      var w :| w in ws && w.request == id;
      var k :| 0 <= k < |ws| && ws[k] == w;
      assert all[|rs| + k] == wk[k];
      assert all[|rs| + k] in all;
    }
    forall id | id in Requests(rs) ensures id in Requests(all) {
      var r :| r in rs && r.request == id;
      assert r in all;
    }
  }

  /** Answering one more waiter extends the wake-up answers by its own. */
  lemma WakeupsStep(ws: seq<Waiter>, i: nat, cs: seq<Change>, talks: map<string, Talk>, now: int)
    requires i < |ws|
    ensures Wakeups(ws[..i + 1], cs, talks, now)
      == Wakeups(ws[..i], cs, talks, now) + [Response(ws[i].request, 200, TalkList(now, ChangedTalks(cs, talks, ws[i].since)))]
  {
  }

  /** Taking one waiter out of a list of distinct waiters removes exactly its request. */
  lemma RemoveWaiter(ws: seq<Waiter>, k: nat)
    requires ParkedOnce(ws) && k < |ws|
    ensures ParkedOnce(ws[..k] + ws[k + 1..])
    ensures Parked(ws[..k] + ws[k + 1..]) == Parked(ws) - {ws[k].request}
  {
    var rest := ws[..k] + ws[k + 1..];
    assert forall m :: 0 <= m < |rest| ==> rest[m] == if m < k then ws[m] else ws[m + 1];
    forall id | id in Parked(ws) - {ws[k].request} ensures id in Parked(rest) {
      var w :| w in ws && w.request == id;
      var m :| 0 <= m < |ws| && ws[m] == w;
      if m < k {
        assert rest[m] == w;
      } else {
        assert rest[m - 1] == w;
      }
    }
    forall id | id in Parked(rest) ensures id in Parked(ws) - {ws[k].request} {
      var w :| w in rest && w.request == id;
      var m :| 0 <= m < |rest| && rest[m] == w;
    }
  }

  class Hub {
    var talks: map<string, Talk>
    var changes: seq<Change>
    var waiting: seq<Waiter>
    /** Everything written back to clients, in order. */
    var responses: seq<Response>
    /** Requests whose 90-second timer has been set and has not fired yet. */
    var timers: set<nat>
    /** The number the next request gets. */
    var nextRequest: nat
    /** The latest clock reading. */
    ghost var clock: int

    ghost function WaitingIds(): set<nat>
      reads this
    {
      Parked(waiting)
    }

    ghost function Answered(): set<nat>
      reads this
    {
      Requests(responses)
    }

    /** The invariant every step keeps, even inside a handler whose own
        request is not answered yet. */
    ghost predicate Core()
      reads this
    {
      && WellKeyed(talks)
      && Sorted(changes)
      && (forall k :: 0 <= k < |changes| ==> changes[k].time <= clock)
      && ParkedOnce(waiting)
      && AnsweredOnce(responses)
      && WaitingIds() !! Answered()
      && WaitingIds() <= timers
      && (forall id :: id in Answered() ==> id < nextRequest)
      && (forall id :: id in timers ==> id < nextRequest)
    }

    /** Between requests: each request so far has been answered exactly once
        or is parked and unanswered. */
    ghost predicate Valid()
      reads this
    {
      Core() && forall id :: 0 <= id < nextRequest ==> id in Answered() || id in WaitingIds()
    }

    constructor (ghost start: int)
      ensures Valid()
      ensures talks == map[] && changes == [] && waiting == [] && responses == []
      ensures timers == {} && nextRequest == 0 && clock == start
    {
      talks, changes, waiting, responses := map[], [], [], [];
      timers, nextRequest := {}, 0;
      clock := start;
    }

    /** Nothing but the answer to `req` was written: the talks, the log, the
        parked requests, the timers and the clock are as before. */
    twostate predicate OnlyAnswered(req: nat, status: int, payload: Payload)
      reads this
    {
      && talks == old(talks) && changes == old(changes) && waiting == old(waiting)
      && timers == old(timers) && clock == old(clock)
      && responses == old(responses) + [Response(req, status, payload)]
    }

    /** A successful mutation of `title` at time `now`: one log entry, every
        parked request woken from the new state, then the 204 answer to `req`. */
    twostate predicate Notified(title: string, now: int, req: nat)
      reads this
    {
      && changes == old(changes) + [Change(title, now)]
      && waiting == [] && timers == old(timers) && clock == now
      && responses == old(responses) + Wakeups(old(waiting), changes, talks, now) + [Response(req, 204, NoContent)]
    }

    /** Writes the answer to request `req`, which is neither answered nor parked
        and is the only request in that state. */
    method Respond(req: nat, status: int, payload: Payload)
      requires Core() && req < nextRequest && req !in Answered() && req !in WaitingIds()
      requires forall id :: 0 <= id < nextRequest && id != req ==> id in Answered() || id in WaitingIds()
      modifies this`responses
      ensures Valid()
      ensures responses == old(responses) + [Response(req, status, payload)]
    {
      responses := responses + [Response(req, status, payload)];
      assert Answered() == old(Answered()) + {req} by {
        assert forall r :: r in responses <==> r in old(responses) || r == Response(req, status, payload);
      }
    }

    /** Answers `req` with the list `list` and the current time. */
    method SendTalks(list: seq<Entry>, req: nat, now: int)
      requires Core() && clock <= now && req < nextRequest && req !in Answered() && req !in WaitingIds()
      requires forall id :: 0 <= id < nextRequest && id != req ==> id in Answered() || id in WaitingIds()
      modifies this`responses, this`clock
      ensures Valid() && clock == now
      ensures responses == old(responses) + [Response(req, 200, TalkList(now, list))]
    {
      clock := now;
      Respond(req, 200, TalkList(now, list));
    }

    /** Appends `Change(title, now)` to the log, answers every parked request
        with its change list computed after the append, and parks none. */
    method RegisterChange(title: string, now: int)
      requires Core() && clock <= now
      modifies this`changes, this`waiting, this`responses, this`clock
      ensures Core() && clock == now
      ensures changes == old(changes) + [Change(title, now)]
      ensures responses == old(responses) + Wakeups(old(waiting), changes, talks, now)
      ensures waiting == []
      ensures Answered() == old(Answered()) + old(WaitingIds())
    {
      AppendKeepsSorted(changes, Change(title, now), clock);
      changes := changes + [Change(title, now)];
      clock := now;
      var i := 0;
      while i < |waiting|
        modifies this`responses
        invariant 0 <= i <= |waiting|
        invariant responses == old(responses) + Wakeups(waiting[..i], changes, talks, now)
      {
        var waiter := waiting[i];
        var changed := GetChangedTalks(waiter.since);
        WakeupsStep(waiting, i, changes, talks, now);
        responses := responses + [Response(waiter.request, 200, TalkList(now, changed))];
        i := i + 1;
      }
      assert waiting[..i] == waiting;
      WakeupsAnswerParked(old(responses), waiting, changes, talks, now);
      assert Answered() == old(Answered()) + old(WaitingIds());
      waiting := [];
    }

    /** Parks request `req` with cursor `since` and sets its timer. */
    method WaitForChanges(since: int, req: nat)
      requires Core() && req < nextRequest && req !in Answered() && req !in WaitingIds() && req !in timers
      modifies this`waiting, this`timers
      ensures Core()
      ensures waiting == old(waiting) + [Waiter(req, since)]
      ensures timers == old(timers) + {req}
      ensures WaitingIds() == old(WaitingIds()) + {req}
    {
      waiting := waiting + [Waiter(req, since)];
      timers := timers + {req};
      assert forall w :: w in waiting <==> w in old(waiting) || w == Waiter(req, since);
    }

    /** GET /talks/{title}. */
    method GetTalk(title: string) returns (req: nat)
      requires Valid()
      modifies this`responses, this`nextRequest
      ensures Valid()
      ensures req == old(nextRequest) && nextRequest == req + 1
      ensures title in talks ==> OnlyAnswered(req, 200, OneTalk(talks[title]))
      ensures title !in talks ==> OnlyAnswered(req, 404, Text(NotFoundMessage(title)))
    {
      req := nextRequest;
      nextRequest := nextRequest + 1;
      if title in talks {
        Respond(req, 200, OneTalk(talks[title]));
      } else {
        Respond(req, 404, Text(NotFoundMessage(title)));
      }
    }

    /** DELETE /talks/{title}: removes a stored talk and records the change;
        an absent title changes nothing. The answer is 204 either way. */
    method DeleteTalk(title: string, now: int) returns (req: nat)
      requires Valid() && clock <= now
      modifies this`talks, this`changes, this`waiting, this`responses, this`nextRequest, this`clock
      ensures Valid()
      ensures req == old(nextRequest) && nextRequest == req + 1
      ensures title in old(talks) ==> talks == old(talks) - {title} && Notified(title, now, req)
      ensures title !in old(talks) ==> OnlyAnswered(req, 204, NoContent)
    {
      req := nextRequest;
      nextRequest := nextRequest + 1;
      if title in talks {
        talks := talks - {title};
        RegisterChange(title, now);
      }
      Respond(req, 204, NoContent);
    }

    /** PUT /talks/{title}: with string `presenter` and `summary` the talk is
        stored afresh, without comments, and the change recorded; otherwise
        the answer is 400 and nothing changes. */
    method PutTalk(title: string, body: Body, now: int) returns (req: nat)
      requires Valid() && clock <= now
      modifies this`talks, this`changes, this`waiting, this`responses, this`nextRequest, this`clock
      ensures Valid()
      ensures req == old(nextRequest) && nextRequest == req + 1
      ensures body.Unreadable? ==> OnlyAnswered(req, 400, Text(body.error))
      ensures body.Parsed? && (StringField(body.doc, "presenter").None? || StringField(body.doc, "summary").None?) ==>
        OnlyAnswered(req, 400, Text("Bad talk data"))
      ensures body.Parsed? && StringField(body.doc, "presenter").Some? && StringField(body.doc, "summary").Some? ==>
        && talks == old(talks)[title := Talk(title, StringField(body.doc, "presenter").value, StringField(body.doc, "summary").value, [])]
        && Notified(title, now, req)
    {
      req := nextRequest;
      nextRequest := nextRequest + 1;
      if body.Unreadable? {
        Respond(req, 400, Text(body.error));
      } else {
        var presenter, summary := StringField(body.doc, "presenter"), StringField(body.doc, "summary");
        if presenter.None? || summary.None? {
          Respond(req, 400, Text("Bad talk data"));
        } else {
          talks := talks[title := Talk(title, presenter.value, summary.value, [])];
          RegisterChange(title, now);
          Respond(req, 204, NoContent);
        }
      }
    }

    /** POST /talks/{title}/comments: with string `author` and `message` on a
        stored title the comment goes at the end of that talk's comments and
        the change is recorded; a bad body is answered 400 and an absent
        title 404, and then nothing changes. */
    method PostComment(title: string, body: Body, now: int) returns (req: nat)
      requires Valid() && clock <= now
      modifies this`talks, this`changes, this`waiting, this`responses, this`nextRequest, this`clock
      ensures Valid()
      ensures req == old(nextRequest) && nextRequest == req + 1
      ensures body.Unreadable? ==> OnlyAnswered(req, 400, Text(body.error))
      ensures body.Parsed? && (StringField(body.doc, "author").None? || StringField(body.doc, "message").None?) ==>
        OnlyAnswered(req, 400, Text("Bad comment data"))
      ensures body.Parsed? && StringField(body.doc, "author").Some? && StringField(body.doc, "message").Some? ==>
        if title in old(talks) then
          && talks == old(talks)[title := old(talks)[title].(comments := old(talks)[title].comments
               + [Comment(StringField(body.doc, "author").value, StringField(body.doc, "message").value)])]
          && Notified(title, now, req)
        else
          OnlyAnswered(req, 404, Text(NotFoundMessage(title)))
    {
      req := nextRequest;
      nextRequest := nextRequest + 1;
      if body.Unreadable? {
        Respond(req, 400, Text(body.error));
      } else {
        var author, message := StringField(body.doc, "author"), StringField(body.doc, "message");
        if author.None? || message.None? {
          Respond(req, 400, Text("Bad comment data"));
        } else if title in talks {
          var talk := talks[title];
          talks := talks[title := talk.(comments := talk.comments + [Comment(author.value, message.value)])];
          RegisterChange(title, now);
          Respond(req, 204, NoContent);
        } else {
          Respond(req, 404, Text(NotFoundMessage(title)));
        }
      }
    }

    /** GET /talks and GET /talks?changesSince=s: the whole store; or, for a
        numeric cursor, the change list at once when it is not empty and a
        parked request when it is; 400 for a cursor that is not a number. */
    method GetTalks(query: Query, now: int) returns (req: nat)
      requires Valid() && clock <= now
      modifies this`waiting, this`responses, this`timers, this`nextRequest, this`clock
      ensures Valid()
      ensures req == old(nextRequest) && nextRequest == req + 1
      ensures query.AllTalks? ==>
        && waiting == old(waiting) && timers == old(timers) && clock == now
        && exists list :: ListsAll(list, talks) && responses == old(responses) + [Response(req, 200, TalkList(now, Lives(list)))]
      ensures query.NotANumber? ==> OnlyAnswered(req, 400, Text("Invalid parameter"))
      ensures query.ChangesSince? && ChangedTalks(changes, talks, query.since) != [] ==>
        && waiting == old(waiting) && timers == old(timers) && clock == now
        && responses == old(responses) + [Response(req, 200, TalkList(now, ChangedTalks(changes, talks, query.since)))]
      ensures query.ChangesSince? && ChangedTalks(changes, talks, query.since) == [] ==>
        && waiting == old(waiting) + [Waiter(req, query.since)] && timers == old(timers) + {req}
        && responses == old(responses) && clock == old(clock)
    {
      req := nextRequest;
      nextRequest := nextRequest + 1;
      match query {
        case AllTalks =>
          SendAllTalks(req, now);
        case NotANumber =>
          Respond(req, 400, Text("Invalid parameter"));
        case ChangesSince(since) =>
          AnswerOrWait(since, req, now);
      }
    }

    /** The `changesSince` branch of GET /talks for request `req`: answer with
        the change list when it is not empty, otherwise park the request. */
    method AnswerOrWait(since: int, req: nat, now: int)
      requires Core() && clock <= now && req < nextRequest && req !in Answered() && req !in WaitingIds() && req !in timers
      requires forall id :: 0 <= id < nextRequest && id != req ==> id in Answered() || id in WaitingIds()
      modifies this`waiting, this`responses, this`timers, this`clock
      ensures Valid()
      ensures ChangedTalks(changes, talks, since) != [] ==>
        && waiting == old(waiting) && timers == old(timers) && clock == now
        && responses == old(responses) + [Response(req, 200, TalkList(now, ChangedTalks(changes, talks, since)))]
      ensures ChangedTalks(changes, talks, since) == [] ==>
        && waiting == old(waiting) + [Waiter(req, since)] && timers == old(timers) + {req}
        && responses == old(responses) && clock == old(clock)
    {
      var changed := GetChangedTalks(since);
      if |changed| > 0 {
        SendTalks(changed, req, now);
      } else {
        WaitForChanges(since, req);
      }
    }

    /** The branch of GET /talks without a cursor: answer `req` with every stored talk. */
    method SendAllTalks(req: nat, now: int)
      requires Core() && clock <= now && req < nextRequest && req !in Answered() && req !in WaitingIds()
      requires forall id :: 0 <= id < nextRequest && id != req ==> id in Answered() || id in WaitingIds()
      modifies this`responses, this`clock
      ensures Valid() && clock == now
      ensures exists list :: ListsAll(list, talks) && responses == old(responses) + [Response(req, 200, TalkList(now, Lives(list)))]
    {
      var list := ListTalks();
      SendTalks(Lives(list), req, now);
    }

    /** The 90-second timer of request `id` fires: if the request is still
        parked it is taken out and answered with an empty list; if it was
        already answered nothing happens. */
    method Timeout(id: nat, now: int)
      requires Valid() && id in timers && clock <= now
      modifies this`waiting, this`responses, this`timers, this`clock
      ensures Valid()
      ensures timers == old(timers) - {id}
      ensures id in old(WaitingIds()) ==>
        && (exists k :: 0 <= k < |old(waiting)| && old(waiting)[k].request == id && waiting == old(waiting)[..k] + old(waiting)[k + 1..])
        && responses == old(responses) + [Response(id, 200, TalkList(now, []))]
        && clock == now
      ensures id !in old(WaitingIds()) ==> waiting == old(waiting) && responses == old(responses) && clock == old(clock)
    {
      timers := timers - {id};
      var found := IndexOfWaiter(id);
      if found > -1 {
        RemoveWaiter(waiting, found);
        waiting := waiting[..found] + waiting[found + 1..];
        SendTalks([], id, now);
      } else {
        assert id !in WaitingIds();
      }
    }

    /** The position of request `id` among the parked requests, or -1. */
    method IndexOfWaiter(id: nat) returns (found: int)
      ensures -1 <= found < |waiting|
      ensures 0 <= found ==> waiting[found].request == id && forall k :: 0 <= k < found ==> waiting[k].request != id
      ensures found == -1 <==> id !in Parked(waiting)
    {
      var i := 0;
      while i < |waiting|
        invariant 0 <= i <= |waiting|
        invariant forall k :: 0 <= k < i ==> waiting[k].request != id
      {
        if waiting[i].request == id {
          return i;
        }
        i := i + 1;
      }
      return -1;
    }

    /** Every stored talk, each once, in some order. */
    method ListTalks() returns (list: seq<Talk>)
      requires WellKeyed(talks)
      ensures ListsAll(list, talks)
    {
      list := [];
      var rest := talks.Keys;
      while rest != {}
        invariant rest <= talks.Keys
        invariant |list| + |rest| == |talks|
        invariant forall k :: 0 <= k < |list| ==> list[k].title in talks && talks[list[k].title] == list[k] && list[k].title !in rest
        invariant forall i, j :: 0 <= i < j < |list| ==> list[i].title != list[j].title
        invariant forall t :: t in talks && t !in rest ==> talks[t] in list
        decreases rest
      {
        var t :| t in rest;
        list := list + [talks[t]];
        rest := rest - {t};
      }
    }

    /** The change list for cursor `since`: the backward scan of the log. */
    method GetChangedTalks(since: int) returns (found: seq<Entry>)
      requires WellKeyed(talks)
      ensures found == ChangedTalks(changes, talks, since)
    {
      found := [];
      var cs, stored := changes, talks;
      var i := |cs| - 1;
      while i >= 0
        invariant -1 <= i < |cs|
        invariant Cut(cs, since) <= i + 1
        invariant found == ScanFrom(cs, stored, i + 1)
      {
        var change := cs[i];
        if change.time <= since {
          break;
        }
        ScanPassesNewer(cs, since, i);
        if AlreadySeen(found, change.title) {
        } else if change.title in stored {
          found := found + [Live(stored[change.title])];
        } else {
          found := found + [Deleted(change.title)];
        }
        i := i - 1;
      }
      ScanStopsAtCut(cs, since, i);
      ScanFromIsScanned(cs, stored, i + 1);
    }

    /** Whether `found` already holds an entry for `title`. */
    static function AlreadySeen(found: seq<Entry>, title: string): (seen: bool)
      ensures seen <==> title in Titles(found)
    {
      if found == [] then false
      else found[0].Title() == title || AlreadySeen(found[1..], title)
    }
  }
}
