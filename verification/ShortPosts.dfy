/** Version 1 exchanges in which a post may find too little room: which messages that spoils. */
module ShortPosts {
  import opened Words
  import opened Checksum
  import opened Pipe
  import opened Loss
  import opened Exchange

  /** Bookkeeping from the exchanges alone: the lengths of the posts that found no room at each end since it last
      wrote or validated, and, for each message in flight, what was left at its sender when it was posted. */
  datatype Ledger = Ledger(guest: nat, host: nat, fromGuest: seq<nat>, fromHost: seq<nat>)

  function Left(l: Ledger, s: Side): nat {
    if s == Guest then l.guest else l.host
  }

  function Queue(l: Ledger, s: Side): seq<nat> {
    if s == Guest then l.fromGuest else l.fromHost
  }

  function WithLeft(l: Ledger, s: Side, left: nat): Ledger {
    if s == Guest then l.(guest := left) else l.(host := left)
  }

  function WithQueue(l: Ledger, s: Side, q: seq<nat>): Ledger {
    if s == Guest then l.(fromGuest := q) else l.(fromHost := q)
  }

  function Note(l: Ledger, x: Exchange): Ledger {
    match x
    case Post(s, length, room) =>
      if room < VERSION_1_CHECKSUM_SIZE then WithLeft(l, s, Left(l, s) + length)
      else WithQueue(WithLeft(l, s, 0), s, Queue(l, s) + [Left(l, s)])
    case Fetch(s) =>
      if Queue(l, Other(s)) == [] then l
      else WithQueue(WithLeft(l, s, 0), Other(s), Queue(l, Other(s))[1..])
    case Resume(_, _) => l
    case Select(_, _) => l
  }

  /** The verdict to expect of an exchange: what was left at the sender and what is left at the receiver agree. */
  function Expect(l: Ledger, x: Exchange): seq<bool> {
    if x.Fetch? && Queue(l, Other(x.side)) != []
    then [Wrap(Queue(l, Other(x.side))[0]) == Wrap(Left(l, x.side))]
    else []
  }

  function NoteAll(l: Ledger, xs: seq<Exchange>): Ledger
    decreases xs
  {
    if xs == [] then l else NoteAll(Note(l, xs[0]), xs[1..])
  }

  function ExpectAll(l: Ledger, xs: seq<Exchange>): seq<bool>
    decreases xs
  {
    if xs == [] then [] else Expect(l, xs[0]) + ExpectAll(Note(l, xs[0]), xs[1..])
  }

  function Oks(es: seq<Event>): (oks: seq<bool>)
    ensures |oks| == |es|
    ensures forall i :: 0 <= i < |es| ==> oks[i] == es[i].ok
  {
    seq(|es|, i requires 0 <= i < |es| => es[i].ok)
  }

  lemma OksConcat(a: seq<Event>, b: seq<Event>)
    ensures Oks(a + b) == Oks(a) + Oks(b)
  {}

  // ---- the ledger follows the pipe ----

  /** Each packet's checksum covers its message and what was left before it. */
  ghost predicate Carries(ch: Channel, q: seq<nat>) {
    && Lossless(ch) && |q| == |ch.packets|
    && forall i :: 0 <= i < |q| ==> ch.packets[i].version == 1 && ch.packets[i].total == Wrap(q[i] + ch.packets[i].length)
  }

  ghost predicate Mirrors(p: Pipe, l: Ledger) {
    && Sound(p) && p.guest.version == 1 && p.host.version == 1
    && p.guest.total == Wrap(l.guest) && p.host.total == Wrap(l.host)
    && Carries(p.fromGuest, l.fromGuest) && Carries(p.fromHost, l.fromHost)
  }

  lemma PushCarries(ch: Channel, q: seq<nat>, bytes: seq<byte>, c: Calc, length: nat, left: nat)
    requires Ordered(ch) && Carries(ch, q) && c.version == 1 && c.total == Wrap(left + length)
    ensures Carries(Push(ch, bytes, c, length), q + [left])
  {
    PushKeepsLossless(ch, bytes, c, length);
    hide Lossless, Wrap;
  }

  lemma PopCarries(ch: Channel, q: seq<nat>)
    requires Ordered(ch) && Carries(ch, q) && q != []
    ensures Carries(Pop(ch, 0, false), q[1..])
  {
    PopKeepsLossless(ch);
    hide Lossless, Wrap;
  }

  lemma PostMirrors(p: Pipe, l: Ledger, s: Side, length: nat, room: nat)
    requires Mirrors(p, l)
    ensures Mirrors(Does(p, Post(s, length, room)), Note(l, Post(s, length, room)))
    ensures Judges(p, Post(s, length, room)) == []
  {
    hide Encode, Wrap, Lossless, Does, Judges, Sound, ChecksumOf;
    SoundChannels(p);
    PostOutcome(p, s, length, room);
    var a := Next(End(p, s), AddBuffer(length));
    WrapAbsorbs(Left(l, s), length);
    WrapSmall(0);
    PushCarries(From(p, s), Queue(l, s), ChecksumOf(a.version, a.total, a.numWrite), a, length, Left(l, s));
    hide Carries;
  }

  lemma HeadCarries(ch: Channel, q: seq<nat>)
    requires Carries(ch, q)
    ensures Lossless(ch) && (q == [] <==> ch.packets == [])
    ensures q != [] ==> ch.packets[0].version == 1 && ch.packets[0].total == Wrap(q[0] + ch.packets[0].length)
  {}

  lemma FetchMirrors(p: Pipe, l: Ledger, s: Side)
    requires Mirrors(p, l)
    ensures Mirrors(Does(p, Fetch(s)), Note(l, Fetch(s)))
    ensures Oks(Judges(p, Fetch(s))) == Expect(l, Fetch(s))
  {
    hide Encode, Wrap, Lossless, Does, Judges, Sound, Carries, Pop;
    var ch, queue := From(p, Other(s)), Queue(l, Other(s));
    HeadCarries(ch, queue);
    if queue != [] {
      SoundChannels(p);
      FetchOutcome(p, s);
      PopCarries(ch, queue);
      LeftoversAgree(queue[0], Left(l, s), ch.packets[0].length);
      WrapSmall(0);
    } else {
      NothingToFetch(p, s);
    }
  }

  lemma LeftoversAgree(left: nat, left': nat, length: nat)
    ensures Wrap(left + length) == Wrap(Wrap(left') + length) <==> Wrap(left) == Wrap(left')
  {
    WrapAbsorbs(left', length);
    WrapOffsets(length, left, left');
  }

  lemma ExchangeMirrors(p: Pipe, l: Ledger, x: Exchange)
    requires Mirrors(p, l) && !x.Select?
    ensures Mirrors(Does(p, x), Note(l, x))
    ensures Oks(Judges(p, x)) == Expect(l, x)
  {
    match x
    case Post(s, length, room) => PostMirrors(p, l, s, length, room);
    case Fetch(s) => FetchMirrors(p, l, s);
    case Resume(s, spare) => ResumeOutcome(p, s, spare);
  }

  /** In version 1, whether posts find room or not and whatever is in flight, a message is accepted if and only if
      the lengths left over at its sender when it was posted and at its receiver when it is fetched agree mod
      2^32. */
  lemma {:induction false} LeftoversDecide(p: Pipe, l: Ledger, xs: seq<Exchange>)
    requires Mirrors(p, l) && (forall x :: x in xs ==> !x.Select?)
    ensures Mirrors(Talk(p, xs), NoteAll(l, xs))
    ensures Oks(Verdicts(p, xs)) == ExpectAll(l, xs)
    decreases xs
  {
    if xs != [] {
      hide Mirrors, Does, Judges, Note, Expect, Oks;
      ExchangeMirrors(p, l, xs[0]);
      LeftoversDecide(Does(p, xs[0]), Note(l, xs[0]), xs[1..]);
      OksConcat(Judges(p, xs[0]), Verdicts(Does(p, xs[0]), xs[1..]));
    }
  }

  function Zeros(n: nat): seq<nat> {
    if n == 0 then [] else [0] + Zeros(n - 1)
  }

  lemma {:induction false} ZerosAt(n: nat)
    ensures |Zeros(n)| == n && forall i :: 0 <= i < n ==> Zeros(n)[i] == 0
    decreases n
  {
    if n != 0 {
      ZerosAt(n - 1);
    }
  }

  /** Nothing is left over in a settled pipe. */
  function Clean(p: Pipe): Ledger {
    Ledger(0, 0, Zeros(|p.fromGuest.packets|), Zeros(|p.fromHost.packets|))
  }

  lemma SettledIsClean(p: Pipe)
    requires Settled(p, 1)
    ensures Mirrors(p, Clean(p))
  {
    ZerosAt(|p.fromGuest.packets|);
    ZerosAt(|p.fromHost.packets|);
    CleanCarries(p.fromGuest);
    CleanCarries(p.fromHost);
  }

  lemma CleanCarries(ch: Channel)
    requires Honest(ch) && AllOf(ch, 1)
    ensures Carries(ch, Zeros(|ch.packets|))
  {
    ZerosAt(|ch.packets|);
    forall i | 0 <= i < |ch.packets|
      ensures ch.packets[i].version == 1 && ch.packets[i].total == Wrap(0 + ch.packets[i].length)
    {
      assert ch.packets[i] in ch.packets;
    }
    hide Lossless;
  }

  // ---- how many messages are spoiled ----

  /** Lengths left over that are not multiples of 2^32. */
  function Bad(left: nat): nat {
    if Wrap(left) == 0 then 0 else 1
  }

  function AllBad(q: seq<nat>): nat {
    if q == [] then 0 else Bad(q[0]) + AllBad(q[1..])
  }

  lemma {:induction false} AllBadAppend(q: seq<nat>, left: nat)
    ensures AllBad(q + [left]) == AllBad(q) + Bad(left)
    decreases q
  {
    if q != [] {
      assert (q + [left])[1..] == q[1..] + [left];
      AllBadAppend(q[1..], left);
    }
  }

  lemma {:induction false} ZerosAreGood(n: nat)
    ensures AllBad(Zeros(n)) == 0
    decreases n
  {
    if n != 0 {
      ZerosAreGood(n - 1);
    }
  }

  function Debt(l: Ledger): nat {
    Bad(l.guest) + Bad(l.host) + AllBad(l.fromGuest) + AllBad(l.fromHost)
  }

  /** Verdicts that reject. */
  function Rejections(oks: seq<bool>): nat {
    if oks == [] then 0 else (if oks[0] then 0 else 1) + Rejections(oks[1..])
  }

  lemma {:induction false} RejectionsConcat(a: seq<bool>, b: seq<bool>)
    ensures Rejections(a + b) == Rejections(a) + Rejections(b)
    decreases a
  {
    if a == [] {
      assert a + b == b;
    } else {
      assert (a + b)[1..] == a[1..] + b;
      RejectionsConcat(a[1..], b);
    }
  }

  predicate Short(x: Exchange) {
    x.Post? && x.room < VERSION_1_CHECKSUM_SIZE
  }

  function Shorts(xs: seq<Exchange>): nat {
    if xs == [] then 0 else (if Short(xs[0]) then 1 else 0) + Shorts(xs[1..])
  }

  lemma DebtStep(l: Ledger, x: Exchange)
    ensures Rejections(Expect(l, x)) + Debt(Note(l, x)) <= Debt(l) + (if Short(x) then 1 else 0)
    ensures !Short(x) && Debt(l) <= 1 ==> Rejections(Expect(l, x)) + Debt(Note(l, x)) == Debt(l)
  {
    match x
    case Post(s, length, room) => AllBadAppend(Queue(l, s), Left(l, s));
    case Fetch(s) =>
    case Resume(_, _) =>
    case Select(_, _) =>
  }

  /** On any run the rejections, and the leftovers that may still cause one, are at most the posts without room and
      the leftovers there were. */
  lemma {:induction false} RejectionsBounded(l: Ledger, xs: seq<Exchange>)
    ensures Rejections(ExpectAll(l, xs)) + Debt(NoteAll(l, xs)) <= Debt(l) + Shorts(xs)
    ensures Shorts(xs) == 0 && Debt(l) <= 1 ==> Rejections(ExpectAll(l, xs)) + Debt(NoteAll(l, xs)) == Debt(l)
    decreases xs
  {
    if xs != [] {
      DebtStep(l, xs[0]);
      RejectionsBounded(Note(l, xs[0]), xs[1..]);
      RejectionsConcat(Expect(l, xs[0]), ExpectAll(Note(l, xs[0]), xs[1..]));
    }
  }

  /** From a settled version 1 pipe, no run rejects more messages than it has posts without room. */
  lemma RejectionsNeedShortPosts(p: Pipe, xs: seq<Exchange>)
    requires Settled(p, 1) && (forall x :: x in xs ==> !x.Select?)
    ensures Rejections(Oks(Verdicts(p, xs))) <= Shorts(xs)
  {
    SettledIsClean(p);
    LeftoversDecide(p, Clean(p), xs);
    RejectionsBounded(Clean(p), xs);
    CleanHasNoDebt(p);
  }

  lemma CleanHasNoDebt(p: Pipe)
    ensures Debt(Clean(p)) == 0
  {
    ZerosAreGood(|p.fromGuest.packets|);
    ZerosAreGood(|p.fromHost.packets|);
  }

  /** A single post without room, of a length that is not a multiple of 2^32, spoils exactly one message: after it
      and any exchanges with room, either one message has been rejected and nothing is left over, or none has and
      the length is still left over at one place, waiting to spoil one. */
  lemma OneShortPostSpoilsOne(p: Pipe, s: Side, length: nat, short: nat, xs: seq<Exchange>)
    requires Settled(p, 1) && (forall x :: x in xs ==> !x.Select?)
    requires short < VERSION_1_CHECKSUM_SIZE && Wrap(length) != 0 && Shorts(xs) == 0
    ensures var all := [Post(s, length, short)] + xs;
      Rejections(Oks(Verdicts(p, all))) + Debt(NoteAll(Clean(p), all)) == 1
  {
    hide Settled, Mirrors, Note, Expect, Debt, Wrap, Clean, Oks, Shorts, Verdicts, NoteAll, ExpectAll;
    var l, post := Clean(p), Post(s, length, short);
    SettledIsClean(p);
    NoteShortPost(p, s, length, short);
    ExpectFirst(l, post, xs);
    LeftoversDecide(p, l, [post] + xs);
    RejectionsBounded(Note(l, post), xs);
    assert [] + ExpectAll(Note(l, post), xs) == ExpectAll(Note(l, post), xs);
  }

  lemma NoteShortPost(p: Pipe, s: Side, length: nat, short: nat)
    requires short < VERSION_1_CHECKSUM_SIZE && Wrap(length) != 0
    ensures Debt(Note(Clean(p), Post(s, length, short))) == 1
    ensures Expect(Clean(p), Post(s, length, short)) == []
  {
    CleanHasNoDebt(p);
  }

  lemma ExpectFirst(l: Ledger, x: Exchange, xs: seq<Exchange>)
    ensures ExpectAll(l, [x] + xs) == Expect(l, x) + ExpectAll(Note(l, x), xs)
    ensures NoteAll(l, [x] + xs) == NoteAll(Note(l, x), xs)
  {
    assert ([x] + xs)[1..] == xs;
  }

  // ---- which messages they are ----

  lemma CleanThenFetch(p: Pipe, s: Side, length: nat, short: nat)
    requires From(p, Other(s)).packets != [] && short < VERSION_1_CHECKSUM_SIZE
    ensures ExpectAll(Clean(p), [Post(s, length, short), Fetch(s)]) == [Wrap(length) == 0]
  {
    var x, y, l := Post(s, length, short), Fetch(s), Clean(p);
    ZerosAt(|From(p, Other(s)).packets|);
    assert Expect(l, x) == [] && Expect(Note(l, x), y) == [Wrap(length) == 0];
    hide Note, Expect, Clean, Zeros, Wrap;
    ExpectFirst(l, x, [y]);
    ExpectFirst(Note(l, x), y, []);
    assert [x] + [y] == [x, y] && [y] + [] == [y];
    assert ExpectAll(Note(Note(l, x), y), []) == [];
  }

  /** If the end that had no room fetches next, the message it fetches is the one, though intact and in order. */
  lemma ShortPostSpoilsNextFetch(p: Pipe, s: Side, length: nat, short: nat)
    requires Settled(p, 1) && short < VERSION_1_CHECKSUM_SIZE
    requires From(p, Other(s)).packets != []
    ensures Oks(Verdicts(p, [Post(s, length, short), Fetch(s)])) == [Wrap(length) == 0]
  {
    hide Settled, Mirrors, Clean, ExpectAll, NoteAll, Verdicts, Wrap;
    SettledIsClean(p);
    CleanThenFetch(p, s, length, short);
    LeftoversDecide(p, Clean(p), [Post(s, length, short), Fetch(s)]);
  }

  function Fetches(s: Side, n: nat): seq<Exchange> {
    if n == 0 then [] else [Fetch(s)] + Fetches(s, n - 1)
  }

  function Trues(n: nat): seq<bool> {
    if n == 0 then [] else [true] + Trues(n - 1)
  }

  lemma FetchFront(l: Ledger, s: Side, front: nat, rest: seq<nat>)
    requires Queue(l, Other(s)) == [front] + rest && Left(l, s) == 0
    ensures Expect(l, Fetch(s)) == [Wrap(front) == 0]
    ensures Queue(Note(l, Fetch(s)), Other(s)) == rest && Left(Note(l, Fetch(s)), s) == 0
  {
    assert ([front] + rest)[1..] == rest;
  }

  lemma {:induction false} FetchingUpTo(l: Ledger, s: Side, n: nat, left: nat)
    requires Queue(l, Other(s)) == Zeros(n) + [left] && Left(l, s) == 0
    ensures ExpectAll(l, Fetches(s, n + 1)) == Trues(n) + [Wrap(left) == 0]
    decreases n
  {
    hide Note, Expect, Queue, Left, Wrap;
    var l' := Note(l, Fetch(s));
    ExpectFirst(l, Fetch(s), Fetches(s, n));
    if n == 0 {
      assert Zeros(0) + [left] == [left] + [];
      FetchFront(l, s, left, []);
      assert ExpectAll(l', Fetches(s, 0)) == [];
    } else {
      assert Zeros(n) + [left] == [0] + (Zeros(n - 1) + [left]);
      FetchFront(l, s, 0, Zeros(n - 1) + [left]);
      WrapSmall(0);
      FetchingUpTo(l', s, n - 1, left);
    }
  }

  /** If it posts next, with room, the message it posts is the one: its receiver accepts everything in flight before
      it, and it only if the length left over is a multiple of 2^32. */
  lemma ShortPostSpoilsNextPost(p: Pipe, s: Side, length: nat, short: nat, length': nat, room: nat)
    requires Settled(p, 1) && short < VERSION_1_CHECKSUM_SIZE <= room
    ensures var n := |From(p, s).packets|;
      Oks(Verdicts(p, [Post(s, length, short), Post(s, length', room)] + Fetches(Other(s), n + 1)))
      == Trues(n) + [Wrap(length) == 0]
  {
    var n := |From(p, s).packets|;
    SettledIsClean(p);
    NoSelects(Other(s), n + 1);
    LedgerAfterShortPost(Clean(p), s, length, short, length', room, n);
    hide Settled, Mirrors, Fetches, Clean, ExpectAll, Verdicts, Oks, Zeros;
    LeftoversDecide(p, Clean(p), [Post(s, length, short), Post(s, length', room)] + Fetches(Other(s), n + 1));
  }

  lemma LedgerAfterShortPost(l: Ledger, s: Side, length: nat, short: nat, length': nat, room: nat, n: nat)
    requires short < VERSION_1_CHECKSUM_SIZE <= room
    requires Left(l, s) == 0 && Left(l, Other(s)) == 0 && Queue(l, s) == Zeros(n)
    ensures ExpectAll(l, [Post(s, length, short), Post(s, length', room)] + Fetches(Other(s), n + 1)) ==
            Trues(n) + [Wrap(length) == 0]
  {
    var x, y, rest := Post(s, length, short), Post(s, length', room), Fetches(Other(s), n + 1);
    var l1 := Note(l, x);
    var l2 := Note(l1, y);
    FetchingUpTo(l2, Other(s), n, length);
    hide Zeros, Fetches, Trues, Wrap;
    ExpectFirst(l, x, [y] + rest);
    ExpectFirst(l1, y, rest);
    assert [x] + ([y] + rest) == [x, y] + rest;
  }

  lemma {:induction false} NoSelects(s: Side, n: nat)
    ensures forall x :: x in Fetches(s, n) ==> !x.Select?
    decreases n
  {
    if n != 0 {
      NoSelects(s, n - 1);
    }
  }
}
