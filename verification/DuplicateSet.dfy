/**
 The duplicate set (src/duplicate_set.c): per originator a 32-bit window over 16-bit circular message
 sequence numbers.  The window is proved to refine an ideal one over unbounded numbers.
 */
module DuplicateSet {
  import opened Bits

  type Address = nat

  const SEQ_MOD: int := 0x1_0000
  const HALF: int := 0x8000
  const DUP_MAX_TOO_LOW: nat := 16

  datatype Entry = Entry(seqnr: nat, tooLow: nat, bits: bv32)

  /** What became of a message: the first two are processed, the last two are blocked. */
  datatype Verdict = Accepted | Restarted | Duplicate | TooLow

  predicate Blocked(v: Verdict) {
    v.Duplicate? || v.TooLow?
  }

  // ---- Circular differences ---------------------------------------------------------------------

  /** olsr_seqno_diff */
  function SeqnoDiff(s1: int, s2: int): (d: int)
    requires 0 <= s1 < SEQ_MOD && 0 <= s2 < SEQ_MOD
    ensures -HALF <= d <= HALF && (d - (s1 - s2)) % SEQ_MOD == 0
  {
    var diff := s1 - s2;
    if diff > HALF then diff - SEQ_MOD
    else if diff < -HALF then diff + SEQ_MOD
    else diff
  }

  /**
   The circular difference is the true one exactly when the numbers are close, or half a circle apart the right way.
   */
  lemma {:induction false} SeqnoDiffExact(a: int, b: int)
    ensures SeqnoDiff(a % SEQ_MOD, b % SEQ_MOD) == a - b <==>
              || -HALF < a - b < HALF
              || (a - b == HALF && a % SEQ_MOD >= HALF)
              || (a - b == -HALF && a % SEQ_MOD < HALF)
  {
    var qa, qb := a / SEQ_MOD, b / SEQ_MOD;
    assert a == qa * SEQ_MOD + a % SEQ_MOD && b == qb * SEQ_MOD + b % SEQ_MOD;
    var d := SeqnoDiff(a % SEQ_MOD, b % SEQ_MOD);
    assert d - (a - b) == (qb - qa) * SEQ_MOD || d - (a - b) == (qb - qa - 1) * SEQ_MOD
        || d - (a - b) == (qb - qa + 1) * SEQ_MOD;
  }

  // ---- One window step ----------------------------------------------------------------------------

  /** olsr_create_duplicate_entry: the window starts empty, without its own first message. */
  function Create(seqnr: nat): Entry {
    Entry(seqnr, 0, 0)
  }

  /** Move the window up by diff numbers and mark its new head. */
  function Advance(bits: bv32, diff: nat): bv32 {
    Or(if diff < 32 then Shl(bits, diff) else 0, 1)
  }

  /** The window part of olsr_message_is_duplicate. */
  function Receive(e: Entry, seqnr: nat): (r: (Entry, Verdict))
    requires e.seqnr < SEQ_MOD && seqnr < SEQ_MOD
  {
    var diff := SeqnoDiff(seqnr, e.seqnr);
    if diff < -31 then
      if e.tooLow + 1 > DUP_MAX_TOO_LOW then (Entry(seqnr, 0, 1), Restarted)
      else (e.(tooLow := e.tooLow + 1), TooLow)
    else if diff <= 0 then
      if Test(e.bits, Mask(-diff)) then (e.(tooLow := 0), Duplicate)
      else (e.(tooLow := 0, bits := Or(e.bits, Mask(-diff))), Accepted)
    else
      (Entry(seqnr, 0, Advance(e.bits, diff)), Accepted)
  }

  /** olsr_cleanup_duplicates: after an empty TC a restart is accepted sooner. */
  function Alert(e: Entry): Entry {
    e.(tooLow := DUP_MAX_TOO_LOW - 2)
  }

  // ---- The ideal window ----------------------------------------------------------------------------

  /** Unbounded numbers; `accepted` are those let through since creation or the last restart. */
  datatype Ideal = Ideal(head: int, accepted: set<int>, tooLow: nat)

  function IdealReceive(s: Ideal, n: int): (r: (Ideal, Verdict)) {
    if n < s.head - 31 then
      if s.tooLow + 1 > DUP_MAX_TOO_LOW then (Ideal(n, {n}, 0), Restarted)
      else (s.(tooLow := s.tooLow + 1), TooLow)
    else if n in s.accepted then (s.(tooLow := 0), Duplicate)
    else (Ideal(if n > s.head then n else s.head, s.accepted + {n}, 0), Accepted)
  }

  /** Bit i of the array says whether head - i was accepted. */
  ghost predicate Represents(e: Entry, s: Ideal) {
    && e.seqnr == s.head % SEQ_MOD
    && e.tooLow == s.tooLow
    && (forall x :: x in s.accepted ==> x <= s.head)
    && (forall i: nat :: i < 32 ==> Marks(e.bits, s.head, s.accepted, i))
  }

  ghost predicate Marks(bits: bv32, head: int, accepted: set<int>, i: nat) {
    Bit(bits, i) <==> head - i in accepted
  }

  ghost predicate InReach(s: Ideal, n: int) {
    -HALF < n - s.head < HALF
  }

  lemma {:induction false} CreateRepresents(n: int)
    ensures Represents(Create(n % SEQ_MOD), Ideal(n, {}, 0))
  {
    forall i: nat | i < 32 ensures Marks(0, n, {}, i) { ZeroBit(i); }
  }

  lemma {:induction false} ZeroBit(i: nat)
    ensures !Bit(0, i)
  {
    hide Mask;
  }

  /** One step of the 32-bit window is one step of the ideal window, across wrap-around and shift. */
  lemma {:induction false} ReceiveRefines(e: Entry, s: Ideal, n: int)
    requires Represents(e, s) && InReach(s, n)
    ensures Receive(e, n % SEQ_MOD).1 == IdealReceive(s, n).1
    ensures Represents(Receive(e, n % SEQ_MOD).0, IdealReceive(s, n).0)
  {
    hide Mask, Shl, Test, Bit, Or, Advance, Marks;
    SeqnoDiffExact(n, s.head);
    var diff := n - s.head;
    if diff < -31 {
      if e.tooLow + 1 > DUP_MAX_TOO_LOW { OneIsHead(n); }
    } else if diff <= 0 {
      BitIsTest(e, s, -diff);
      OldNumberStep(e, s, -diff);
    } else {
      NewNumberStep(e, s, n);
    }
  }

  lemma {:induction false} BitIsTest(e: Entry, s: Ideal, i: nat)
    requires Represents(e, s) && i < 32
    ensures Test(e.bits, Mask(i)) <==> s.head - i in s.accepted
  {
    hide Mask, Test;
    assert Marks(e.bits, s.head, s.accepted, i);
  }

  lemma {:induction false} OneIsHead(n: int)
    ensures forall i: nat :: i < 32 ==> Marks(1, n, {n}, i)
  {
    hide Mask, Shl, Test, Bit, Or;
    forall i: nat | i < 32 ensures Marks(1, n, {n}, i) { OneBit(i); }
  }

  lemma {:induction false} OneBit(i: nat)
    requires i < 32
    ensures Bit(1, i) <==> i == 0
  {
    hide Bit;
    ZeroBit(i);
    OrOne(0, i);
    assert Or(0, 1) == 1;
  }

  lemma {:induction false} OrOne(x: bv32, i: nat)
    requires i < 32
    ensures Bit(Or(x, 1), i) <==> i == 0 || Bit(x, i)
  {
    hide Bit, Or;
    assert Mask(0) == 1;
    BitOr(x, 0, i);
  }

  lemma {:induction false} OldNumberStep(e: Entry, s: Ideal, k: nat)
    requires Represents(e, s) && k < 32
    ensures Represents(e.(bits := Or(e.bits, Mask(k)), tooLow := 0), s.(accepted := s.accepted
              + {s.head - k}, tooLow := 0))
  {
    hide Mask, Shl, Test, Bit, Or;
    var bits, accepted := Or(e.bits, Mask(k)), s.accepted + {s.head - k};
    forall i: nat | i < 32 ensures Marks(bits, s.head, accepted, i) {
      assert Marks(e.bits, s.head, s.accepted, i);
      BitOr(e.bits, k, i);
    }
  }

  lemma {:induction false} NewNumberStep(e: Entry, s: Ideal, n: int)
    requires Represents(e, s) && n > s.head
    ensures Represents(Entry(n % SEQ_MOD, 0, Advance(e.bits, n - s.head)), Ideal(n, s.accepted + {n}, 0))
  {
    hide Advance, Marks;
    var bits, accepted := Advance(e.bits, n - s.head), s.accepted + {n};
    forall i: nat | i < 32 ensures Marks(bits, n, accepted, i) {
      NewNumberBit(e, s, n, i);
    }
  }

  lemma {:induction false} NewNumberBit(e: Entry, s: Ideal, n: int, i: nat)
    requires Represents(e, s) && n > s.head && i < 32
    ensures Marks(Advance(e.bits, n - s.head), n, s.accepted + {n}, i)
  {
    hide Mask, Shl, Test, Bit, Or;
    var diff := n - s.head;
    var a := if diff < 32 then Shl(e.bits, diff) else 0;
    OrOne(a, i);
    if diff < 32 {
      BitShl(e.bits, diff, i);
      assert i >= diff ==> Marks(e.bits, s.head, s.accepted, i - diff);
      assert n - i == s.head - (i - diff);
    } else {
      ZeroBit(i);
    }
  }

  // ---- Whole runs ------------------------------------------------------------------------------------

  /** What happens to an existing entry: a message with its true number, or an alert. */
  datatype Event = Message(n: int) | Cleanup

  function Step(e: Entry, ev: Event): Entry
    requires e.seqnr < SEQ_MOD
  {
    match ev
    case Message(n) => Receive(e, n % SEQ_MOD).0
    case Cleanup => Alert(e)
  }

  function IdealStep(s: Ideal, ev: Event): Ideal {
    match ev
    case Message(n) => IdealReceive(s, n).0
    case Cleanup => s.(tooLow := DUP_MAX_TOO_LOW - 2)
  }

  /** The ideal state after the first k events. */
  function IdealAt(s: Ideal, evs: seq<Event>, k: nat): Ideal
    requires k <= |evs|
  {
    if k == 0 then s else IdealStep(IdealAt(s, evs, k - 1), evs[k - 1])
  }

  function EntryAt(e: Entry, evs: seq<Event>, k: nat): (r: Entry)
    requires k <= |evs| && e.seqnr < SEQ_MOD
    ensures r.seqnr < SEQ_MOD
  {
    if k == 0 then e else Step(EntryAt(e, evs, k - 1), evs[k - 1])
  }

  /** The answer given to message k of a run that starts with entry e. */
  function VerdictAt(e: Entry, evs: seq<Event>, k: nat): Verdict
    requires k < |evs| && e.seqnr < SEQ_MOD && evs[k].Message?
  {
    Receive(EntryAt(e, evs, k), evs[k].n % SEQ_MOD).1
  }

  /** Every message of the run is within half a circle of the head it meets. */
  ghost predicate RunInReach(s: Ideal, evs: seq<Event>) {
    forall k :: 0 <= k < |evs| && evs[k].Message? ==> InReach(IdealAt(s, evs, k), evs[k].n)
  }

  /** The window refines the ideal window along every run. */
  lemma {:induction false} RunRefines(e: Entry, s: Ideal, evs: seq<Event>, k: nat)
    requires Represents(e, s) && RunInReach(s, evs) && k <= |evs|
    ensures e.seqnr < SEQ_MOD
    ensures Represents(EntryAt(e, evs, k), IdealAt(s, evs, k))
    ensures k < |evs| && evs[k].Message? ==>
              VerdictAt(e, evs, k) == IdealReceive(IdealAt(s, evs, k), evs[k].n).1
  {
    hide Receive, Represents, IdealReceive;
    RepresentsBound(e, s);
    if k > 0 {
      RunRefines(e, s, evs, k - 1);
      if evs[k - 1].Message? {
        ReceiveRefines(EntryAt(e, evs, k - 1), IdealAt(s, evs, k - 1), evs[k - 1].n);
      } else {
        AlertRefines(EntryAt(e, evs, k - 1), IdealAt(s, evs, k - 1));
      }
    }
    if k < |evs| && evs[k].Message? {
      ReceiveRefines(EntryAt(e, evs, k), IdealAt(s, evs, k), evs[k].n);
    }
  }

  lemma {:induction false} RepresentsBound(e: Entry, s: Ideal)
    requires Represents(e, s)
    ensures e.seqnr < SEQ_MOD
  {
  }

  lemma {:induction false} AlertRefines(e: Entry, s: Ideal)
    requires Represents(e, s)
    ensures Represents(Alert(e), s.(tooLow := DUP_MAX_TOO_LOW - 2))
  {
  }

  /** Message i was processed: let through by a window step or by a restart. */
  ghost predicate ProcessedAt(e: Entry, evs: seq<Event>, i: nat)
    requires i < |evs| && e.seqnr < SEQ_MOD
  {
    evs[i].Message? && !Blocked(VerdictAt(e, evs, i))
  }

  /** No restart among events i .. j. */
  ghost predicate NoRestart(e: Entry, evs: seq<Event>, i: nat, j: nat)
    requires i <= j <= |evs| && e.seqnr < SEQ_MOD
  {
    forall k :: i <= k < j && evs[k].Message? ==> VerdictAt(e, evs, k) != Restarted
  }

  /** Along a restart-free stretch the ideal window forgets nothing it accepted. */
  lemma {:induction false} AcceptedStays(e: Entry, s: Ideal, evs: seq<Event>, i: nat, j: nat)
    requires Represents(e, s) && RunInReach(s, evs) && i <= j <= |evs|
    requires e.seqnr < SEQ_MOD && NoRestart(e, evs, i, j)
    ensures IdealAt(s, evs, i).accepted <= IdealAt(s, evs, j).accepted
  {
    hide Receive, Represents, InReach;
    if i < j {
      AcceptedStays(e, s, evs, i, j - 1);
      RunRefines(e, s, evs, j - 1);
    }
  }

  lemma {:induction false} ProcessedIsAccepted(e: Entry, s: Ideal, evs: seq<Event>, i: nat)
    requires Represents(e, s) && RunInReach(s, evs) && i < |evs| && e.seqnr < SEQ_MOD
    requires ProcessedAt(e, evs, i)
    ensures evs[i].n in IdealAt(s, evs, i + 1).accepted
  {
    hide Receive, Represents, InReach, IdealReceive, EntryAt, VerdictAt;
    RunRefines(e, s, evs, i);
    PassedIsAccepted(IdealAt(s, evs, i), evs[i].n);
  }

  lemma {:induction false} PassedIsAccepted(s: Ideal, n: int)
    ensures !Blocked(IdealReceive(s, n).1) ==> n in IdealReceive(s, n).0.accepted
    ensures n in s.accepted ==> Blocked(IdealReceive(s, n).1) || IdealReceive(s, n).1 == Restarted
  {
  }

  /** Between restarts no number is processed twice. */
  lemma {:induction false} NoNumberTwice(e: Entry, s: Ideal, evs: seq<Event>, i: nat, j: nat)
    requires Represents(e, s) && RunInReach(s, evs) && i < j < |evs|
    requires e.seqnr < SEQ_MOD && NoRestart(e, evs, i + 1, j + 1)
    requires ProcessedAt(e, evs, i) && ProcessedAt(e, evs, j)
    ensures evs[i].n != evs[j].n
  {
    hide Receive, Represents, InReach, IdealReceive, EntryAt, VerdictAt, IdealAt;
    ProcessedIsAccepted(e, s, evs, i);
    AcceptedStays(e, s, evs, i + 1, j);
    RunRefines(e, s, evs, j);
    PassedIsAccepted(IdealAt(s, evs, j), evs[j].n);
  }

  /** A number inside the window that no earlier step processed is never blocked. */
  lemma {:induction false} NoFalseDuplicate(e: Entry, s: Ideal, evs: seq<Event>, j: nat)
    requires Represents(e, s) && RunInReach(s, evs) && j < |evs| && e.seqnr < SEQ_MOD
    requires evs[j].Message? && VerdictAt(e, evs, j) == Duplicate && evs[j].n !in s.accepted
    ensures exists i :: 0 <= i < j && ProcessedAt(e, evs, i) && evs[i].n == evs[j].n
  {
    RunRefines(e, s, evs, j);
    FirstAcceptance(e, s, evs, j, evs[j].n);
  }

  lemma {:induction false} FirstAcceptance(e: Entry, s: Ideal, evs: seq<Event>, j: nat, n: int)
    requires Represents(e, s) && RunInReach(s, evs) && j <= |evs| && e.seqnr < SEQ_MOD
    requires n in IdealAt(s, evs, j).accepted && n !in s.accepted
    ensures exists i :: 0 <= i < j && ProcessedAt(e, evs, i) && evs[i].n == n
  {
    hide Receive, Represents, InReach, IdealReceive;
    RunRefines(e, s, evs, j - 1);
    if n in IdealAt(s, evs, j - 1).accepted {
      FirstAcceptance(e, s, evs, j - 1, n);
    } else {
      OnlyProcessingAccepts(IdealAt(s, evs, j - 1), evs[j - 1], n);
      assert ProcessedAt(e, evs, j - 1) && evs[j - 1].n == n;
    }
  }

  lemma {:induction false} OnlyProcessingAccepts(s: Ideal, ev: Event, n: int)
    requires n in IdealStep(s, ev).accepted && n !in s.accepted
    ensures ev == Message(n) && !Blocked(IdealReceive(s, n).1)
  {
  }

  /** The message that creates an entry is not in its window: repeated at once it is processed a second time. */
  lemma {:induction false} CreatorRepeats(n: int)
    ensures Receive(Create(n % SEQ_MOD), n % SEQ_MOD).1 == Accepted
    ensures Receive(Receive(Create(n % SEQ_MOD), n % SEQ_MOD).0, n % SEQ_MOD).1 == Duplicate
  {
    hide Receive;
    CreateRepresents(n);
    ReceiveRefines(Create(n % SEQ_MOD), Ideal(n, {}, 0), n);
    var s := Ideal(n, {n}, 0);
    assert IdealReceive(Ideal(n, {}, 0), n).0 == s;
    ReceiveRefines(Receive(Create(n % SEQ_MOD), n % SEQ_MOD).0, s, n);
  }

  // ---- A node's whole history with one originator -------------------------------------------------

  /**
   A number that did not arrive since the window started passes exactly when it is not too low for the window, or when
   so many were too low before it that the window restarts.
   */
  lemma {:induction false} FirstArrival(e: Entry, s: Ideal, evs: seq<Event>, k: nat)
    requires Represents(e, s) && RunInReach(s, evs) && k < |evs| && e.seqnr < SEQ_MOD
    requires evs[k].Message? && evs[k].n !in s.accepted && forall i :: 0 <= i < k ==> evs[i] != evs[k]
    ensures ProcessedAt(e, evs, k) <==>
              evs[k].n >= IdealAt(s, evs, k).head - 31 || EntryAt(e, evs, k).tooLow + 1 > DUP_MAX_TOO_LOW
  {
    hide Receive, Represents, InReach, EntryAt, VerdictAt, IdealAt;
    RunRefines(e, s, evs, k);
    RepresentsCount(EntryAt(e, evs, k), IdealAt(s, evs, k));
    if evs[k].n in IdealAt(s, evs, k).accepted {
      FirstAcceptance(e, s, evs, k, evs[k].n);
    }
  }

  lemma {:induction false} RepresentsCount(e: Entry, s: Ideal)
    requires Represents(e, s)
    ensures e.tooLow == s.tooLow
  {
  }

  /** So the first repeat of the number that created the entry, in any run, passes exactly then. */
  lemma {:induction false} CreatorReturns(n: int, evs: seq<Event>, k: nat)
    requires RunInReach(Ideal(n, {}, 0), evs) && k < |evs| && evs[k] == Message(n)
    requires forall i :: 0 <= i < k ==> evs[i] != Message(n)
    ensures ProcessedAt(Create(n % SEQ_MOD), evs, k) <==>
              || n >= IdealAt(Ideal(n, {}, 0), evs, k).head - 31
              || EntryAt(Create(n % SEQ_MOD), evs, k).tooLow + 1 > DUP_MAX_TOO_LOW
  {
    hide Represents, InReach, EntryAt, VerdictAt, IdealAt, ProcessedAt;
    CreateRepresents(n);
    FirstArrival(Create(n % SEQ_MOD), Ideal(n, {}, 0), evs, k);
  }

  /** What happens to an originator that the node knew nothing of: its first message creates the entry. */
  ghost predicate Contact(evs: seq<Event>) {
    evs != [] && evs[0].Message?
  }

  /** Event k is a message and passes. */
  ghost predicate Forwardable(evs: seq<Event>, k: nat)
    requires Contact(evs) && k < |evs|
  {
    k == 0 || ProcessedAt(Create(evs[0].n % SEQ_MOD), evs[1..], k - 1)
  }

  /**
   After first contact no number is processed twice, so only the creating number can be processed two times in all.
   */
  lemma {:induction false} ProcessedAtMostTwice(evs: seq<Event>, i: nat, j: nat)
    requires Contact(evs) && 0 < i < j < |evs| && evs[i] == evs[j]
    requires RunInReach(Ideal(evs[0].n, {}, 0), evs[1..])
    requires NoRestart(Create(evs[0].n % SEQ_MOD), evs[1..], 0, |evs| - 1)
    ensures !(Forwardable(evs, i) && Forwardable(evs, j))
  {
    hide Represents, Receive, RunInReach, NoRestart, EntryAt, IdealAt, VerdictAt, Blocked;
    var e, s, later := Create(evs[0].n % SEQ_MOD), Ideal(evs[0].n, {}, 0), evs[1..];
    CreateRepresents(evs[0].n);
    if Forwardable(evs, i) && Forwardable(evs, j) {
      NoRestartWithin(e, later, i, j);
      NoNumberTwice(e, s, later, i - 1, j - 1);
    }
  }

  lemma {:induction false} NoRestartWithin(e: Entry, evs: seq<Event>, i: nat, j: nat)
    requires i <= j <= |evs| && e.seqnr < SEQ_MOD && NoRestart(e, evs, 0, |evs|)
    ensures NoRestart(e, evs, i, j)
  {
  }

  /** A stretch of blocked too-low messages without an alert in it. */
  ghost predicate AllTooLow(e: Entry, evs: seq<Event>, i: nat, j: nat)
    requires i <= j <= |evs| && e.seqnr < SEQ_MOD
  {
    forall k :: i <= k < j ==> evs[k].Message? && VerdictAt(e, evs, k) == TooLow
  }

  /** At most 16 too-low messages in a row are blocked before the window follows the restarted sender. */
  lemma {:induction false} TooLowRunsAreShort(e: Entry, evs: seq<Event>, i: nat, j: nat)
    requires e.seqnr < SEQ_MOD && i <= j <= |evs| && AllTooLow(e, evs, i, j)
    ensures EntryAt(e, evs, j).tooLow == EntryAt(e, evs, i).tooLow + (j - i)
    ensures j > i ==> j - i <= 16
  {
    hide Receive;
    if i < j {
      TooLowRunsAreShort(e, evs, i, j - 1);
      assert VerdictAt(e, evs, j - 1) == TooLow;
      TooLowCounts(EntryAt(e, evs, j - 1), evs[j - 1].n % SEQ_MOD);
    }
  }

  lemma {:induction false} TooLowCounts(e: Entry, seqno: nat)
    requires e.seqnr < SEQ_MOD && seqno < SEQ_MOD && Receive(e, seqno).1 == TooLow
    ensures Receive(e, seqno).0.tooLow == e.tooLow + 1 <= DUP_MAX_TOO_LOW
  {
  }

  /** Where the stretch of too-low messages that ends before event k began, and how far the count was there. */
  lemma {:induction false} StretchStart(e: Entry, evs: seq<Event>, k: nat) returns (i: nat)
    requires e.seqnr < SEQ_MOD && e.tooLow == 0 && k <= |evs|
    ensures i <= k && AllTooLow(e, evs, i, k)
    ensures EntryAt(e, evs, i).tooLow == if i > 0 && evs[i - 1].Cleanup? then 14 else 0
  {
    hide Receive;
    if k > 0 && evs[k - 1].Message? && VerdictAt(e, evs, k - 1) == TooLow {
      i := StretchStart(e, evs, k - 1);
    } else {
      i := k;
      if k > 0 && evs[k - 1].Message? {
        OtherwiseReset(EntryAt(e, evs, k - 1), evs[k - 1].n % SEQ_MOD);
      }
    }
  }

  lemma {:induction false} OtherwiseReset(e: Entry, seqno: nat)
    requires e.seqnr < SEQ_MOD && seqno < SEQ_MOD && Receive(e, seqno).1 != TooLow
    ensures Receive(e, seqno).0.tooLow == 0
  {
    hide Mask, Shl, Test, Or;
  }

  /** A stretch that makes the window give up: 16 too-low messages, or two right behind an alert. */
  ghost predicate GivesUp(e: Entry, evs: seq<Event>, i: nat, k: nat)
    requires e.seqnr < SEQ_MOD
  {
    && i <= k <= |evs| && AllTooLow(e, evs, i, k)
    && (k - i >= 16 || (i > 0 && evs[i - 1].Cleanup? && k - i >= 2))
  }

  /** A new entry follows a restarted sender exactly with the first too-low message behind such a stretch. */
  lemma {:induction false} RestartsExactly(n: int, evs: seq<Event>, k: nat)
    requires RunInReach(Ideal(n, {}, 0), evs) && k < |evs| && evs[k].Message?
    ensures var e, s := Create(n % SEQ_MOD), Ideal(n, {}, 0);
            VerdictAt(e, evs, k) == Restarted <==>
              evs[k].n < IdealAt(s, evs, k).head - 31 && exists i: nat :: GivesUp(e, evs, i, k)
  {
    var e, s := Create(n % SEQ_MOD), Ideal(n, {}, 0);
    hide Receive, Represents, InReach, EntryAt, IdealAt, RunInReach;
    CreateRepresents(n);
    RunRefines(e, s, evs, k);
    RepresentsCount(EntryAt(e, evs, k), IdealAt(s, evs, k));
    var i := StretchStart(e, evs, k);
    TooLowRunsAreShort(e, evs, i, k);
    if EntryAt(e, evs, k).tooLow >= 16 {
      assert GivesUp(e, evs, i, k);
    }
    forall j: nat | GivesUp(e, evs, j, k) ensures EntryAt(e, evs, k).tooLow >= 16 {
      TooLowRunsAreShort(e, evs, j, k);
      if j > 0 && evs[j - 1].Cleanup? {
        AlertedAt(e, evs, j);
      }
    }
  }

  lemma {:induction false} AlertedAt(e: Entry, evs: seq<Event>, j: nat)
    requires e.seqnr < SEQ_MOD && 0 < j <= |evs| && evs[j - 1].Cleanup?
    ensures EntryAt(e, evs, j).tooLow == 14
  {
  }

  /** The head of the window is the largest number let through, or the number it started from. */
  lemma {:induction false} HeadIsNewest(s: Ideal, evs: seq<Event>, k: nat)
    requires k <= |evs| && forall x :: x in s.accepted ==> x <= s.head
    ensures var r := IdealAt(s, evs, k);
            (forall x :: x in r.accepted ==> x <= r.head) && (r.head in r.accepted || r.head == s.head)
  {
    if k > 0 {
      HeadIsNewest(s, evs, k - 1);
    }
  }

  // ---- The set itself --------------------------------------------------------------------------------

  /** What one message does to the entry of its originator, and whether it is blocked. */
  function Arrive(entries: map<Address, Entry>, ip: Address, seqnr: nat): (r: (map<Address, Entry>, bool))
    requires (forall a :: a in entries ==> entries[a].seqnr < SEQ_MOD) && seqnr < SEQ_MOD
    ensures forall a :: a in r.0 ==> r.0[a].seqnr < SEQ_MOD
  {
    if ip in entries then
      var (e, verdict) := Receive(entries[ip], seqnr);
      (entries[ip := e], Blocked(verdict))
    else (entries[ip := Create(seqnr)], false)
  }

  /** DUPLICATE_VTIME in milliseconds. */
  const DUPLICATE_VTIME: nat := 120000

  class DuplicateTable {
    var entries: map<Address, Entry>
    var validUntil: map<Address, nat>

    ghost predicate Valid()
      reads this
    {
      entries.Keys == validUntil.Keys && forall a :: a in entries ==> entries[a].seqnr < SEQ_MOD
    }

    constructor ()
      ensures Valid() && entries == map[]
    {
      entries, validUntil := map[], map[];
    }

    /** olsr_message_is_duplicate at time `now`; the entry lives on until the validity time after its last message. */
    method IsDuplicate(ip: Address, seqnr: nat, now: nat) returns (dup: bool)
      requires Valid() && seqnr < SEQ_MOD
      modifies this
      ensures Valid() && (entries, dup) == Arrive(old(entries), ip, seqnr)
      ensures forall a :: a != ip ==> (a in validUntil <==> a in old(validUntil))
      ensures forall a :: a in old(validUntil) && a != ip ==> validUntil[a] == old(validUntil)[a]
      ensures ip in validUntil && validUntil[ip] >= now + 120000
      ensures ip in old(validUntil) ==> validUntil[ip] >= old(validUntil)[ip]
      ensures validUntil[ip] == now + 120000 || (ip in old(validUntil) && validUntil[ip] == old(validUntil)[ip])
    {
      hide Mask, Shl, Test, Or;
      var until := now + DUPLICATE_VTIME;
      if ip !in entries {
        entries := entries[ip := Entry(seqnr, 0, 0)];
        validUntil := validUntil[ip := until];
        return false;
      }
      if until > validUntil[ip] {
        validUntil := validUntil[ip := until];
      }
      var entry;
      entry, dup := Window(entries[ip], seqnr);
      entries := entries[ip := entry];
    }

    /** The window part of olsr_message_is_duplicate. */
    static method Window(before: Entry, seqnr: nat) returns (entry: Entry, dup: bool)
      requires before.seqnr < SEQ_MOD && seqnr < SEQ_MOD
      ensures entry == Receive(before, seqnr).0 && dup == Blocked(Receive(before, seqnr).1) && entry.seqnr < SEQ_MOD
    {
      hide Mask, Shl, Test, Or;
      entry := before;
      var diff := SeqnoDiff(seqnr, entry.seqnr);
      if diff < -31 {
        entry := entry.(tooLow := entry.tooLow + 1);
        if entry.tooLow > DUP_MAX_TOO_LOW {
          return Entry(seqnr, 0, 1), false;
        }
        return entry, true;
      }
      entry := entry.(tooLow := 0);
      if diff <= 0 {
        var bitmask := Mask(-diff);
        if Test(entry.bits, bitmask) {
          return entry, true;
        }
        return entry.(bits := Or(entry.bits, bitmask)), false;
      } else if diff < 32 {
        entry := entry.(bits := Shl(entry.bits, diff));
      } else {
        entry := entry.(bits := 0);
      }
      return entry.(bits := Or(entry.bits, 1), seqnr := seqnr), false;
    }

    /** olsr_cleanup_duplicate_entry: exactly the entries whose time is over go. */
    method Expire(now: nat)
      requires Valid()
      modifies this
      ensures Valid()
      ensures forall a :: a in entries <==> a in old(entries) && old(validUntil)[a] > now
      ensures forall a :: a in entries ==> entries[a] == old(entries)[a] && validUntil[a] == old(validUntil)[a]
    {
      var todo := entries.Keys;
      while todo != {}
        invariant Valid() && todo <= entries.Keys
        invariant forall a :: a in entries <==> a in old(entries) && (a in todo || old(validUntil)[a] > now)
        invariant forall a :: a in entries ==> entries[a] == old(entries)[a] && validUntil[a] == old(validUntil)[a]
        decreases |todo|
      {
        var a :| a in todo;
        todo := todo - {a};
        if validUntil[a] <= now {
          entries, validUntil := entries - {a}, validUntil - {a};
        }
      }
    }

    /** olsr_cleanup_duplicates */
    method Cleanup(ip: Address)
      requires Valid()
      modifies this
      ensures Valid()
      ensures entries == if ip in old(entries) then old(entries)[ip := Alert(old(entries)[ip])] else old(entries)
      ensures ip in old(entries) ==> entries[ip] == old(entries)[ip].(tooLow := 14)
      ensures validUntil == old(validUntil)
    {
      if ip in entries {
        entries := entries[ip := entries[ip].(tooLow := DUP_MAX_TOO_LOW - 2)];
      }
    }
  }
}
