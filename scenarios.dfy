/** Request sequences that exercise the hub through its contracts alone. */
module Scenarios {
  import opened Talks
  import opened Ledger
  import opened Server

  /** A stored talk is read back as it was sent. */
  method PutThenGet() {
    var hub := new Hub(0);
    var talk := Parsed(Some(map["presenter" := JString("Ann"), "summary" := JString("Hi")]));
    var put := hub.PutTalk("Intro", talk, 10);
    assert hub.responses == [Response(put, 204, NoContent)];
    var get := hub.GetTalk("Intro");
    assert hub.responses[1] == Response(get, 200, OneTalk(Talk("Intro", "Ann", "Hi", [])));
  }

  /** A parked poll that sees no change is answered by its timer with an empty list. */
  method TimerAnswersEmpty() {
    var hub := new Hub(0);
    var poll := hub.GetTalks(ChangesSince(0), 3);
    hub.Timeout(poll, 90003);
    assert hub.responses == [Response(poll, 200, TalkList(90003, []))];
  }

  /** A change answers the oldest parked poll; when that poll's timer fires
      afterwards it finds nothing to do, so the poll is answered once. */
  method ChangeBeatsTimer(hub: Hub, title: string, now: int)
    requires hub.Valid() && hub.clock <= now && hub.waiting != []
    modifies hub
  {
    var poll := hub.waiting[0].request;
    assert poll in hub.WaitingIds();
    hub.RegisterChange(title, now);
    assert poll in hub.Answered() && poll in hub.timers;
    var answers := hub.responses;
    hub.Timeout(poll, now);
    assert hub.responses == answers;
  }
}
