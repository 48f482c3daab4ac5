/** The change log and the change list computed from it.

    The server appends one `Change` per successful mutation. `ChangedTalks`
    is the specification of what a backward scan of the log returns for a
    cursor `since`: the scan stops at the first entry (from the end) whose
    time is at most `since`, keeps each title once, newest change first,
    and describes each title by the talk stored now or by a deletion marker. */
module Ledger {
  import opened Talks

  /** One entry of the change log: `title` changed at clock value `time`. */
  datatype Change = Change(title: string, time: int)

  /** Times never decrease along the log. */
  ghost predicate Sorted(cs: seq<Change>) {
    forall i, j :: 0 <= i < j < |cs| ==> cs[i].time <= cs[j].time
  }

  /** Appending an entry no older than any clock reading so far keeps the
      log's times non-decreasing and bounded by the new entry's time. */
  lemma AppendKeepsSorted(cs: seq<Change>, c: Change, clock: int)
    requires Sorted(cs) && clock <= c.time
    requires forall k :: 0 <= k < |cs| ==> cs[k].time <= clock
    ensures Sorted(cs + [c])
    ensures forall k :: 0 <= k < |cs + [c]| ==> (cs + [c])[k].time <= c.time
  {
  }

  /** The titles that occur in a piece of the log. */
  ghost function TitlesOf(w: seq<Change>): set<string> {
    set c | c in w :: c.title
  }

  /** Where the backward scan stops: every entry from index `k` on is newer
      than `since`, and the entry just before `k`, if any, is not. */
  function Cut(cs: seq<Change>, since: int): (k: nat)
    ensures k <= |cs|
    ensures forall p :: k <= p < |cs| ==> cs[p].time > since
    ensures 0 < k ==> cs[k - 1].time <= since
  {
    if |cs| == 0 then 0
    else if cs[|cs| - 1].time <= since then |cs|
    else Cut(cs[..|cs| - 1], since)
  }

  /** The titles of `w` read from the end: `ts[m]` is the title of the `m`-th newest entry. */
  function NewestFirst(w: seq<Change>): (ts: seq<string>)
    ensures |ts| == |w|
    ensures forall m :: 0 <= m < |w| ==> ts[m] == w[|w| - 1 - m].title
  {
    if w == [] then [] else NewestFirst(w[1..]) + [w[0].title]
  }

  /** `xs` with every repetition of an earlier element dropped. */
  function Distinct(xs: seq<string>): (d: seq<string>)
    ensures forall i, j :: 0 <= i < j < |d| ==> d[i] != d[j]
    ensures forall x :: x in d <==> x in xs
  {
    if xs == [] then []
    else
      var init, x := xs[..|xs| - 1], xs[|xs| - 1];
      assert xs == init + [x];
      var d := Distinct(init);
      if x in d then d else d + [x]
  }

  /** How the change list shows title `t`: the stored talk, or a deletion marker. */
  function Describe(t: string, talks: map<string, Talk>): (e: Entry)
    ensures e.Live? <==> t in talks
    ensures e.Live? ==> e.talk == talks[t]
    ensures e.Deleted? ==> e.title == t
  {
    if t in talks then Live(talks[t]) else Deleted(t)
  }

  function DescribeAll(ts: seq<string>, talks: map<string, Talk>): seq<Entry> {
    seq(|ts|, k requires 0 <= k < |ts| => Describe(ts[k], talks))
  }

  /** The list the backward scan has built once it has taken in the log
      entries from index `k` on. */
  function Scanned(cs: seq<Change>, talks: map<string, Talk>, k: nat): seq<Entry>
    requires k <= |cs|
  {
    DescribeAll(Distinct(NewestFirst(cs[k..])), talks)
  }

  /** The change list for cursor `since`, given the log `cs` and the stored talks. */
  function ChangedTalks(cs: seq<Change>, talks: map<string, Talk>, since: int): (r: seq<Entry>)
    ensures r == [] <==> |cs| == 0 || cs[|cs| - 1].time <= since
  {
    var w := cs[Cut(cs, since)..];
    assert w != [] ==> NewestFirst(w)[0] == w[|w| - 1].title;
    Scanned(cs, talks, Cut(cs, since))
  }

  /** The index of the newest entry for `t` in `w`, or -1 when `t` never occurs. */
  function LastIndex(w: seq<Change>, t: string): (p: int)
    ensures -1 <= p < |w|
    ensures 0 <= p ==> w[p].title == t
    ensures forall q :: p < q < |w| ==> w[q].title != t
  {
    if w == [] then -1
    else if w[|w| - 1].title == t then |w| - 1
    else LastIndex(w[..|w| - 1], t)
  }

  /** The index of the first occurrence of `x` in `xs`. */
  function FirstIndex(xs: seq<string>, x: string): (f: nat)
    requires x in xs
    ensures f < |xs| && xs[f] == x
    ensures forall m :: 0 <= m < f ==> xs[m] != x
  {
    if xs[0] == x then 0 else 1 + FirstIndex(xs[1..], x)
  }

  /** Describing titles keeps them, in order. */
  lemma DescribeAllTitles(ts: seq<string>, talks: map<string, Talk>)
    requires WellKeyed(talks)
    ensures |DescribeAll(ts, talks)| == |ts|
    ensures forall k :: 0 <= k < |ts| ==> DescribeAll(ts, talks)[k].Title() == ts[k]
    ensures Titles(DescribeAll(ts, talks)) == set t | t in ts
  {
    var r := DescribeAll(ts, talks);
    forall k | 0 <= k < |r| ensures r[k].Title() == ts[k] {
    }
    forall t | t in ts ensures t in Titles(r) {
      var k :| 0 <= k < |ts| && ts[k] == t;
      assert r[k] in r;
    }
  }

  /** The titles read from the end are the titles of the log piece. */
  lemma NewestFirstTitles(w: seq<Change>)
    ensures (set t | t in NewestFirst(w)) == TitlesOf(w)
  {
    var n := NewestFirst(w);
    forall t | t in TitlesOf(w) ensures t in n {
      var c :| c in w && c.title == t;
      var p :| 0 <= p < |w| && w[p] == c;
      assert n[|w| - 1 - p] == t;
    }
    forall t | t in n ensures t in TitlesOf(w) {
      var m :| 0 <= m < |n| && n[m] == t;
      assert w[|w| - 1 - m] in w;
    }
  }

  /** The change list names each title at most once. */
  lemma ChangedTalksDistinct(cs: seq<Change>, talks: map<string, Talk>, since: int)
    requires WellKeyed(talks)
    ensures forall i, j :: 0 <= i < j < |ChangedTalks(cs, talks, since)| ==>
      ChangedTalks(cs, talks, since)[i].Title() != ChangedTalks(cs, talks, since)[j].Title()
  {
    var d := Distinct(NewestFirst(cs[Cut(cs, since)..]));
    assert ChangedTalks(cs, talks, since) == DescribeAll(d, talks);
    DescribeAllTitles(d, talks);
  }

  /** Each entry of the change list is the talk stored under its title, or
      exactly the deletion marker when no talk is. */
  lemma ChangedTalksLiveOrDeleted(cs: seq<Change>, talks: map<string, Talk>, since: int)
    requires WellKeyed(talks)
    ensures forall e :: e in ChangedTalks(cs, talks, since) ==>
      e == if e.Title() in talks then Live(talks[e.Title()]) else Deleted(e.Title())
  {
    var d := Distinct(NewestFirst(cs[Cut(cs, since)..]));
    assert ChangedTalks(cs, talks, since) == DescribeAll(d, talks);
  }

  /** The change list names exactly the titles of the log entries the scan reaches. */
  lemma ChangedTalksTitles(cs: seq<Change>, talks: map<string, Talk>, since: int)
    requires WellKeyed(talks)
    ensures Titles(ChangedTalks(cs, talks, since)) == TitlesOf(cs[Cut(cs, since)..])
  {
    var w := cs[Cut(cs, since)..];
    var n := NewestFirst(w);
    var d := Distinct(n);
    assert ChangedTalks(cs, talks, since) == DescribeAll(d, talks);
    DescribeAllTitles(d, talks);
    NewestFirstTitles(w);
    assert (set t | t in d) == (set t | t in n);
  }

  /** The list the backward scan holds once it has taken in the entries from
      index `k` on, one step at a time: an entry whose title is already listed
      adds nothing, any other adds its title's description at the end. */
  ghost function ScanFrom(cs: seq<Change>, talks: map<string, Talk>, k: nat): (r: seq<Entry>)
    requires k <= |cs|
    ensures |r| <= |cs| - k
    ensures r == [] <==> k == |cs|
    decreases |cs| - k
  {
    if k == |cs| then []
    else
      var rest := ScanFrom(cs, talks, k + 1);
      if cs[k].title in Titles(rest) then rest else rest + [Describe(cs[k].title, talks)]
  }

  /** The step-by-step scan builds the list `Scanned` describes: the titles
      of the entries from `k` on, newest first, each once. */
  lemma {:induction false} ScanFromIsScanned(cs: seq<Change>, talks: map<string, Talk>, k: nat)
    requires WellKeyed(talks) && k <= |cs|
    ensures ScanFrom(cs, talks, k) == Scanned(cs, talks, k)
    decreases |cs| - k
  {
    if k == |cs| {
      assert cs[k..] == [];
    } else {
      ScanFromIsScanned(cs, talks, k + 1);
      ScanStep(cs, talks, k);
    }
  }

  /** The backward scan passes an entry newer than the cursor: the stop
      index lies at or before it. */
  lemma ScanPassesNewer(cs: seq<Change>, since: int, i: nat)
    requires i < |cs| && Cut(cs, since) <= i + 1 && cs[i].time > since
    ensures Cut(cs, since) <= i
  {
  }

  /** The backward scan stops where `Cut` says: at the start of the log, or
      just after an entry no newer than the cursor. */
  lemma ScanStopsAtCut(cs: seq<Change>, since: int, i: int)
    requires -1 <= i < |cs| && Cut(cs, since) <= i + 1
    requires i >= 0 ==> cs[i].time <= since
    ensures Cut(cs, since) == i + 1
  {
  }

  /** One step of the backward scan: taking in the entry at index `i` adds
      its title at the end of the list, unless the list already names it. */
  lemma ScanStep(cs: seq<Change>, talks: map<string, Talk>, i: nat)
    requires WellKeyed(talks)
    requires i < |cs|
    ensures Scanned(cs, talks, i)
      == if cs[i].title in Titles(Scanned(cs, talks, i + 1)) then Scanned(cs, talks, i + 1)
         else Scanned(cs, talks, i + 1) + [Describe(cs[i].title, talks)]
  {
    var seen := Distinct(NewestFirst(cs[i + 1..]));
    assert cs[i..] == [cs[i]] + cs[i + 1..];
    var n := NewestFirst(cs[i..]);
    assert n == NewestFirst(cs[i + 1..]) + [cs[i].title];
    assert n[..|n| - 1] == NewestFirst(cs[i + 1..]);
    DescribeAllTitles(seen, talks);
  }

  /** On a log whose times never decrease, an entry newer than the cursor
      lies where the scan reaches. */
  lemma NewerIsScanned(cs: seq<Change>, since: int, c: Change)
    requires Sorted(cs)
    requires c in cs && c.time > since
    ensures c in cs[Cut(cs, since)..]
  {
    var k := Cut(cs, since);
    var p :| 0 <= p < |cs| && cs[p] == c;
    assert k <= p;
    assert cs[k..][p - k] == c;
  }

  /** Every entry the scan reaches is newer than the cursor. */
  lemma ScannedIsNewer(cs: seq<Change>, since: int, c: Change)
    requires c in cs[Cut(cs, since)..]
    ensures c in cs && c.time > since
  {
    var k := Cut(cs, since);
    var q :| 0 <= q < |cs| - k && cs[k..][q] == c;
    assert cs[k + q] == c;
  }

  /** On a log whose times never decrease, the scan reaches exactly the
      entries newer than the cursor. */
  lemma ScanReachesNewer(cs: seq<Change>, since: int)
    requires Sorted(cs)
    ensures TitlesOf(cs[Cut(cs, since)..]) == set c | c in cs && c.time > since :: c.title
  {
    var w := cs[Cut(cs, since)..];
    var newer := set c | c in cs && c.time > since :: c.title;
    forall t | t in newer ensures t in TitlesOf(w) {
      var c :| c in cs && c.time > since && c.title == t;
      NewerIsScanned(cs, since, c);
    }
    forall t | t in TitlesOf(w) ensures t in newer {
      var c :| c in w && c.title == t;
      ScannedIsNewer(cs, since, c);
    }
  }

  /** On a log whose times never decrease, the change list names exactly the
      titles of the entries newer than the cursor. */
  lemma ChangedTalksSorted(cs: seq<Change>, talks: map<string, Talk>, since: int)
    requires WellKeyed(talks)
    requires Sorted(cs)
    ensures Titles(ChangedTalks(cs, talks, since)) == set c | c in cs && c.time > since :: c.title
  {
    ChangedTalksTitles(cs, talks, since);
    ScanReachesNewer(cs, since);
  }

  /** On a log whose times never decrease, an earlier cursor sees every title
      a later cursor sees. */
  lemma EarlierCursorSeesMore(cs: seq<Change>, talks: map<string, Talk>, s1: int, s2: int)
    requires WellKeyed(talks)
    requires Sorted(cs)
    requires s1 <= s2
    ensures Titles(ChangedTalks(cs, talks, s2)) <= Titles(ChangedTalks(cs, talks, s1))
  {
    ChangedTalksSorted(cs, talks, s1);
    ChangedTalksSorted(cs, talks, s2);
  }

  /** `Distinct` keeps the first element of a non-empty sequence in front. */
  lemma {:induction false} DistinctHead(xs: seq<string>)
    requires xs != []
    ensures Distinct(xs) != [] && Distinct(xs)[0] == xs[0]
  {
    if |xs| > 1 {
      var init := xs[..|xs| - 1];
      DistinctHead(init);
    }
  }

  /** A change newer than the cursor, just appended, heads the change list:
      a waiter woken by a change is shown that change first. */
  lemma FreshChangeFirst(cs: seq<Change>, talks: map<string, Talk>, t: string, now: int, since: int)
    requires since < now
    ensures ChangedTalks(cs + [Change(t, now)], talks, since) != []
    ensures ChangedTalks(cs + [Change(t, now)], talks, since)[0] == Describe(t, talks)
  {
    var cs' := cs + [Change(t, now)];
    var w := cs'[Cut(cs', since)..];
    assert NewestFirst(w)[0] == t;
    DistinctHead(NewestFirst(w));
  }

  /** `Distinct` lists its elements in the order of their first occurrence. */
  lemma {:induction false} DistinctKeepsOrder(xs: seq<string>)
    ensures forall i, j :: 0 <= i < j < |Distinct(xs)| ==>
      FirstIndex(xs, Distinct(xs)[i]) < FirstIndex(xs, Distinct(xs)[j])
  {
    if xs != [] {
      var init, x := xs[..|xs| - 1], xs[|xs| - 1];
      assert xs == init + [x];
      DistinctKeepsOrder(init);
      var d := Distinct(init);
      assert Distinct(xs) == if x in d then d else d + [x];
      forall i | 0 <= i < |d| ensures FirstIndex(xs, d[i]) == FirstIndex(init, d[i]) {
        assert d[i] in d;
        FirstIndexOfPrefix(init, x, d[i]);
      }
      if x !in d {
        assert x !in init;
        var d' := d + [x];
        forall i, j | 0 <= i < j < |d'| ensures FirstIndex(xs, d'[i]) < FirstIndex(xs, d'[j]) {
          assert d'[i] == d[i];
          assert FirstIndex(xs, d[i]) == FirstIndex(init, d[i]) < |init|;
          if j < |d| {
            assert d'[j] == d[j];
            assert FirstIndex(init, d[i]) < FirstIndex(init, d[j]);
          } else {
            assert d'[j] == x;
            assert FirstIndex(xs, x) == |init|;
          }
        }
      }
    }
  }

  /** Appending an element does not move the first occurrence of one already present. */
  lemma FirstIndexOfPrefix(init: seq<string>, x: string, y: string)
    requires y in init
    ensures FirstIndex(init + [x], y) == FirstIndex(init, y)
  {
    var f, g := FirstIndex(init + [x], y), FirstIndex(init, y);
    assert (init + [x])[g] == y;
    assert f <= g;
    assert init[f] == (init + [x])[f];
  }

  /** Reading a suffix of the log from its end: position `m` holds the title
      of the `m`-th newest entry of the whole log. */
  lemma NewestFirstOfSuffix(cs: seq<Change>, k: nat)
    requires k <= |cs|
    ensures |NewestFirst(cs[k..])| == |cs| - k
    ensures forall m :: 0 <= m < |cs| - k ==> NewestFirst(cs[k..])[m] == cs[|cs| - 1 - m].title
  {
    var w := cs[k..];
    forall m | 0 <= m < |cs| - k ensures NewestFirst(w)[m] == cs[|cs| - 1 - m].title {
      assert w[|w| - 1 - m] == cs[|cs| - 1 - m];
    }
  }

  /** Reading a suffix of the log from its end, a title first shows up at the
      position of its newest entry in the whole log. */
  lemma FirstIndexIsNewest(cs: seq<Change>, k: nat, t: string)
    requires k <= |cs|
    requires t in NewestFirst(cs[k..])
    ensures k <= LastIndex(cs, t)
    ensures FirstIndex(NewestFirst(cs[k..]), t) == |cs| - 1 - LastIndex(cs, t)
  {
    NewestFirstOfSuffix(cs, k);
    FirstIndexOfBackward(NewestFirst(cs[k..]), cs, t);
  }

  /** For any list `n` of the newest titles of `cs`, newest first, the first
      position of `t` in `n` is that of its newest entry. */
  lemma FirstIndexOfBackward(n: seq<string>, cs: seq<Change>, t: string)
    requires |n| <= |cs| && t in n
    requires forall m :: 0 <= m < |n| ==> n[m] == cs[|cs| - 1 - m].title
    ensures |cs| - |n| <= LastIndex(cs, t)
    ensures FirstIndex(n, t) == |cs| - 1 - LastIndex(cs, t)
  {
    var f := FirstIndex(n, t);
    var p := LastIndex(cs, t);
    assert cs[|cs| - 1 - f].title == t;
    assert |cs| - 1 - f <= p;
    assert n[|cs| - 1 - p] == t;
  }

  /** Reading a suffix of the log from its end and dropping repetitions lists
      each title once, in decreasing order of its newest entry, which lies
      inside the suffix. */
  lemma DistinctNewestOrder(cs: seq<Change>, k: nat)
    requires k <= |cs|
    ensures forall t :: t in Distinct(NewestFirst(cs[k..])) ==> k <= LastIndex(cs, t)
    ensures forall i, j :: 0 <= i < j < |Distinct(NewestFirst(cs[k..]))| ==>
      LastIndex(cs, Distinct(NewestFirst(cs[k..]))[j]) < LastIndex(cs, Distinct(NewestFirst(cs[k..]))[i])
  {
    var n := NewestFirst(cs[k..]);
    var d := Distinct(n);
    DistinctKeepsOrder(n);
    forall i | 0 <= i < |d|
      ensures k <= LastIndex(cs, d[i]) && FirstIndex(n, d[i]) == |cs| - 1 - LastIndex(cs, d[i])
    {
      assert d[i] in d;
      FirstIndexIsNewest(cs, k, d[i]);
    }
  }

  /** The change list is ordered by the newest log entry of each title,
      newest first, and every title's newest entry is one the scan reached:
      the entry kept for a title is its most recent change. */
  lemma ChangedTalksNewestFirst(cs: seq<Change>, talks: map<string, Talk>, since: int)
    requires WellKeyed(talks)
    ensures forall e :: e in ChangedTalks(cs, talks, since) ==> Cut(cs, since) <= LastIndex(cs, e.Title())
    ensures forall i, j :: 0 <= i < j < |ChangedTalks(cs, talks, since)| ==>
      LastIndex(cs, ChangedTalks(cs, talks, since)[j].Title()) < LastIndex(cs, ChangedTalks(cs, talks, since)[i].Title())
  {
    var c := Cut(cs, since);
    var d := Distinct(NewestFirst(cs[c..]));
    var r := ChangedTalks(cs, talks, since);
    DescribeAllTitles(d, talks);
    DistinctNewestOrder(cs, c);
    assert r == DescribeAll(d, talks);
    assert |r| == |d|;
    assert forall k :: 0 <= k < |r| ==> r[k].Title() == d[k];
    forall k | 0 <= k < |r| ensures c <= LastIndex(cs, r[k].Title()) {
      assert r[k].Title() == d[k];
    }
    forall i, j | 0 <= i < j < |r| ensures LastIndex(cs, r[j].Title()) < LastIndex(cs, r[i].Title()) {
      assert r[i].Title() == d[i] && r[j].Title() == d[j];
    }
  }
}
