/**
 * The clock sweep of the buffer pool: which frame it evicts, what it does to
 * the usage counts, and what the 64-bit wrap-around of its hand does to it.
 */
module ClockSweep {
  import opened Arithmetic
  import opened Wrappers

  /** The hand is a machine word that wraps around. */
  const WORD: nat := 0x1_0000_0000_0000_0000

  /** Wrapping increment. */
  function Next(clock: nat): nat {
    if clock + 1 >= WORD then 0 else clock + 1
  }

  datatype Descriptor = Descriptor(page: Option<nat>, dirty: bool, pins: nat, usage: nat)

  datatype Swept = Swept(victim: Option<nat>, descriptors: seq<Descriptor>, clock: nat)

  function Used(d: Descriptor, usage: nat): Descriptor {
    Descriptor(d.page, d.dirty, d.pins, usage)
  }

  /** `k` ticks of the clock: pinned frames are passed, used ones aged, the first other is the victim. */
  function Sweep(ds: seq<Descriptor>, clock: nat, k: nat): (r: Swept)
    requires |ds| > 0
    ensures |r.descriptors| == |ds|
    ensures r.victim.Some? ==> r.victim.value < |ds|
    decreases k
  {
    if k == 0 then Swept(None, ds, clock)
    else
      var hand, next := clock % |ds|, Next(clock);
      if ds[hand].pins > 0 then Sweep(ds, next, k - 1)
      else if ds[hand].usage > 0 then Sweep(ds[hand := Used(ds[hand], ds[hand].usage - 1)], next, k - 1)
      else Swept(Some(hand), ds, next)
  }

  /** How often `k` ticks from `clock` come past frame `i` of `n`. */
  function Visits(n: nat, clock: nat, k: nat, i: nat): nat
    requires n > 0
    decreases k
  {
    if k == 0 then 0 else (if clock % n == i then 1 else 0) + Visits(n, Next(clock), k - 1, i)
  }

  /** A frame the sweep can take: unpinned and passed more often than it was used. */
  predicate Takes(ds: seq<Descriptor>, clock: nat, k: nat, i: nat) {
    i < |ds| && ds[i].pins == 0 && ds[i].usage < Visits(|ds|, clock, k, i)
  }

  /** An unpinned frame that was used less than twice for each of the calls. */
  predicate Spent(ds: seq<Descriptor>, i: nat, calls: nat) {
    i < |ds| && ds[i].pins == 0 && ds[i].usage < 2 * calls
  }

  /** One tick turns the frames the sweep can take into those the rest of it can. */
  lemma TakesNext(ds: seq<Descriptor>, clock: nat, k: nat, i: nat)
    requires 0 < |ds| && 0 < k
    requires ds[clock % |ds|].pins > 0 || ds[clock % |ds|].usage > 0
    ensures var hand := clock % |ds|;
      var aged := if ds[hand].pins > 0 then ds else ds[hand := Used(ds[hand], ds[hand].usage - 1)];
      Takes(aged, Next(clock), k - 1, i) <==> Takes(ds, clock, k, i)
  {
  }

  lemma {:induction false} SweepTakes(ds: seq<Descriptor>, clock: nat, k: nat)
    requires |ds| > 0
    ensures Sweep(ds, clock, k).victim.Some? <==> exists i: nat :: Takes(ds, clock, k, i)
    decreases k
  {
    if k > 0 {
      var hand, next, less := clock % |ds|, Next(clock), k - 1;
      if ds[hand].pins == 0 && ds[hand].usage == 0 {
        assert Takes(ds, clock, k, hand);
      } else {
        var aged := if ds[hand].pins > 0 then ds else ds[hand := Used(ds[hand], ds[hand].usage - 1)];
        SweepTakes(aged, next, less);
        forall i: nat ensures Takes(aged, next, less, i) <==> Takes(ds, clock, k, i) {
          TakesNext(ds, clock, k, i);
        }
      }
    }
  }

  /** A frame that was passed so often: unpinned ones are used once less each time. */
  function Aged(ds: seq<Descriptor>, clock: nat, k: nat, i: nat): Descriptor
    requires i < |ds|
  {
    var seen := Visits(|ds|, clock, k, i);
    if ds[i].pins > 0 then ds[i] else Used(ds[i], if ds[i].usage >= seen then ds[i].usage - seen else 0)
  }

  /** What a sweep without victim did: aged each unpinned frame once per visit, and nothing else. */
  lemma {:induction false} SweepAges(ds: seq<Descriptor>, clock: nat, k: nat, i: nat)
    requires |ds| > 0 && i < |ds| && Sweep(ds, clock, k).victim.None?
    ensures Sweep(ds, clock, k).descriptors[i] == Aged(ds, clock, k, i)
    ensures ds[i].pins == 0 ==> ds[i].usage >= Visits(|ds|, clock, k, i)
    decreases k
  {
    if k > 0 {
      var hand, next := clock % |ds|, Next(clock);
      if ds[hand].pins > 0 {
        SweepAges(ds, next, k - 1, i);
      } else if ds[hand].usage > 0 {
        SweepAges(ds[hand := Used(ds[hand], ds[hand].usage - 1)], next, k - 1, i);
      }
    }
  }

  /** Whatever happens, a sweep changes only usage counts, and only of unpinned frames. */
  lemma {:induction false} SweepFrame(ds: seq<Descriptor>, clock: nat, k: nat, i: nat)
    requires |ds| > 0 && i < |ds|
    ensures Sweep(ds, clock, k).descriptors[i] == Used(ds[i], Sweep(ds, clock, k).descriptors[i].usage)
    ensures Sweep(ds, clock, k).descriptors[i].usage <= ds[i].usage
    ensures ds[i].pins > 0 ==> Sweep(ds, clock, k).descriptors[i] == ds[i]
    ensures Sweep(ds, clock, k).victim == Some(i) ==> ds[i].pins == 0 && Sweep(ds, clock, k).descriptors[i].usage == 0
    decreases k
  {
    if k > 0 {
      var hand, next := clock % |ds|, Next(clock);
      if ds[hand].pins > 0 {
        SweepFrame(ds, next, k - 1, i);
      } else if ds[hand].usage > 0 {
        SweepFrame(ds[hand := Used(ds[hand], ds[hand].usage - 1)], next, k - 1, i);
      }
    }
  }

  lemma {:induction false} SweepClock(ds: seq<Descriptor>, clock: nat, k: nat)
    requires |ds| > 0 && clock < WORD
    ensures Sweep(ds, clock, k).clock < WORD
    ensures Sweep(ds, clock, k).victim.None? && k < WORD ==>
      Sweep(ds, clock, k).clock == if clock + k < WORD then clock + k else clock + k - WORD
    decreases k
  {
    if k > 0 {
      var hand, next := clock % |ds|, Next(clock);
      if ds[hand].pins > 0 {
        SweepClock(ds, next, k - 1);
      } else if ds[hand].usage > 0 {
        SweepClock(ds[hand := Used(ds[hand], ds[hand].usage - 1)], next, k - 1);
      }
    }
  }

  /** The hand after so many ticks. */
  function Ticked(clock: nat, j: nat): nat
    decreases j
  {
    if j == 0 then clock else Ticked(Next(clock), j - 1)
  }

  /** Tick `j` is the first that comes past an unpinned frame once more than it was used, and that frame is `v`. */
  ghost predicate FoundAt(ds: seq<Descriptor>, clock: nat, j: nat, v: nat) {
    Takes(ds, clock, j + 1, v) && forall i: nat {:trigger Takes(ds, clock, j, i)} :: !Takes(ds, clock, j, i)
  }

  lemma FoundNext(ds: seq<Descriptor>, clock: nat, j: nat, v: nat)
    requires 0 < |ds| && 0 < j
    requires ds[clock % |ds|].pins > 0 || ds[clock % |ds|].usage > 0
    ensures var hand := clock % |ds|;
      var aged := if ds[hand].pins > 0 then ds else ds[hand := Used(ds[hand], ds[hand].usage - 1)];
      FoundAt(aged, Next(clock), j - 1, v) <==> FoundAt(ds, clock, j, v)
  {
    var hand := clock % |ds|;
    var aged := if ds[hand].pins > 0 then ds else ds[hand := Used(ds[hand], ds[hand].usage - 1)];
    hide Takes;
    TakesNext(ds, clock, j + 1, v);
    var less := j - 1;
    assert less + 1 == j;
    forall i: nat ensures Takes(aged, Next(clock), less, i) <==> Takes(ds, clock, j, i) {
      TakesNext(ds, clock, j, i);
    }
    if FoundAt(aged, Next(clock), less, v) {
      forall i: nat ensures !Takes(ds, clock, j, i) { assert !Takes(aged, Next(clock), less, i); }
    }
    if FoundAt(ds, clock, j, v) {
      forall i: nat ensures !Takes(aged, Next(clock), less, i) { assert !Takes(ds, clock, j, i); }
    }
  }

  lemma FoundOnce(ds: seq<Descriptor>, clock: nat, j: nat, v: nat, j': nat, v': nat)
    requires 0 < |ds| && FoundAt(ds, clock, j, v) && FoundAt(ds, clock, j', v')
    ensures j == j' && v == v'
  {
    assert !Takes(ds, clock, j', v) && !Takes(ds, clock, j, v');
    if j < j' { MoreVisits(|ds|, clock, j + 1, j', v); }
    if j' < j { MoreVisits(|ds|, clock, j' + 1, j, v'); }
    assert !Takes(ds, clock, j, v) && !Takes(ds, clock, j, v');
    LastVisit(|ds|, clock, j, v);
    LastVisit(|ds|, clock, j, v');
  }

  lemma {:induction false} MoreVisits(n: nat, clock: nat, a: nat, b: nat, i: nat)
    requires n > 0 && a <= b
    ensures Visits(n, clock, a, i) <= Visits(n, clock, b, i)
    decreases a
  {
    if a > 0 { MoreVisits(n, Next(clock), a - 1, b - 1, i); }
  }

  lemma {:induction false} LastVisit(n: nat, clock: nat, j: nat, i: nat)
    requires n > 0
    ensures Visits(n, clock, j + 1, i) == Visits(n, clock, j, i) + if Ticked(clock, j) % n == i then 1 else 0
    decreases j
  {
    if j > 0 { LastVisit(n, Next(clock), j - 1, i); }
  }

  /** A sweep that stops: at the first tick that it can, with the frame it comes past, everything before aged. */
  lemma {:induction false} SweepStops(ds: seq<Descriptor>, clock: nat, k: nat) returns (j: nat)
    requires |ds| > 0 && Sweep(ds, clock, k).victim.Some?
    ensures j < k && FoundAt(ds, clock, j, Sweep(ds, clock, k).victim.value)
    ensures Sweep(ds, clock, k).clock == Ticked(clock, j + 1)
    ensures forall i :: 0 <= i < |ds| ==> Sweep(ds, clock, k).descriptors[i] == Aged(ds, clock, j, i)
    decreases k
  {
    var hand, next := clock % |ds|, Next(clock);
    if ds[hand].pins == 0 && ds[hand].usage == 0 {
      j := 0;
      assert FoundAt(ds, clock, 0, hand);
      assert Ticked(clock, 1) == Ticked(next, 0);
    } else {
      var aged := if ds[hand].pins > 0 then ds else ds[hand := Used(ds[hand], ds[hand].usage - 1)];
      var before := SweepStops(aged, next, k - 1);
      j := before + 1;
      FoundNext(ds, clock, j, Sweep(ds, clock, k).victim.value);
    }
  }

  // -------------------------------------------------------- counting visits

  /** How many of the numbers below `m` have remainder `i`. */
  function Below(n: nat, m: nat, i: nat): nat
    requires n > 0
  {
    if m == 0 then 0 else Below(n, m - 1, i) + if (m - 1) % n == i then 1 else 0
  }

  lemma {:induction false} BelowSmall(n: nat, m: nat, i: nat)
    requires n > 0 && m <= n
    ensures Below(n, m, i) == if i < m then 1 else 0
  {
    if m > 0 {
      BelowSmall(n, m - 1, i);
      DivUnique(n, 0, m - 1, m - 1);
    }
  }

  lemma {:induction false} BelowPeriod(n: nat, m: nat, i: nat)
    requires i < n
    ensures Below(n, m + n, i) == Below(n, m, i) + 1
  {
    if m == 0 {
      BelowSmall(n, n, i);
    } else {
      BelowPeriod(n, m - 1, i);
      ModShift(n, m - 1);
    }
  }

  lemma {:induction false} BelowGrows(n: nat, a: nat, b: nat, i: nat)
    requires n > 0 && a <= b
    ensures Below(n, a, i) <= Below(n, b, i)
    decreases b
  {
    if a < b { BelowGrows(n, a, b - 1, i); }
  }

  /** Without a wrap the visits are those of consecutive numbers. */
  lemma {:induction false} VisitsStraight(n: nat, clock: nat, k: nat, i: nat)
    requires n > 0 && clock < WORD && clock + k <= WORD
    ensures Visits(n, clock, k, i) + Below(n, clock, i) == Below(n, clock + k, i)
    decreases k
  {
    if k > 1 {
      VisitsStraight(n, clock + 1, k - 1, i);
    }
  }

  /** With a wrap they start again from 0. */
  lemma {:induction false} VisitsWrapped(n: nat, clock: nat, k: nat, i: nat)
    requires n > 0 && clock < WORD < clock + k < 2 * WORD
    ensures Visits(n, clock, k, i) + Below(n, clock, i) == Below(n, WORD, i) + Below(n, clock + k - WORD, i)
    decreases k
  {
    if clock + 1 == WORD {
      VisitsStraight(n, 0, k - 1, i);
    } else {
      VisitsWrapped(n, clock + 1, k - 1, i);
    }
  }

  lemma {:induction false} BelowMultiple(n: nat, q: nat, m: nat, i: nat)
    requires i < n
    ensures Below(n, q * n + m, i) == q + Below(n, m, i)
    decreases q
  {
    hide Below;
    if q > 0 {
      BelowMultiple(n, q - 1, m, i);
      var less := (q - 1) * n;
      BelowPeriod(n, less + m, i);
      Distribute(q - 1, 1, n);
    }
  }

  lemma WordParts(n: nat)
    requires n > 0
    ensures (WORD / n) * n + WORD % n == WORD
  {
  }

  lemma BelowWord(n: nat, m: nat, i: nat)
    requires i < n
    ensures Below(n, WORD + m, i) == Below(n, WORD, i) + Below(n, WORD % n + m, i) - Below(n, WORD % n, i)
  {
    var q := WORD / n;
    var r := WORD % n;
    BelowMultiple(n, q, r + m, i);
    BelowMultiple(n, q, r, i);
    WordParts(n);
  }

  lemma BelowRounds(n: nat, m: nat, r: nat, k: nat, i: nat)
    requires i < n && k == r * n
    ensures Below(n, m + k, i) == Below(n, m, i) + r
  {
    hide Below;
    BelowMultiple(n, r, m, i);
  }

  /** How many visits a wrap costs frame `i`. */
  lemma VisitsWrap(n: nat, clock: nat, r: nat, k: nat, i: nat)
    requires i < n && k == r * n && clock < WORD < clock + k < 2 * WORD
    ensures var m, w := clock + k - WORD, WORD % n;
            Visits(n, clock, k, i) + Below(n, w + m, i) == r + Below(n, m, i) + Below(n, w, i)
  {
    hide Below, Visits;
    VisitsWrapped(n, clock, k, i);
    BelowRounds(n, clock, r, k, i);
    BelowWord(n, clock + k - WORD, i);
  }

  /** `k` ticks make whole rounds: no wrap, or one that does no harm. */
  predicate Even(n: nat, clock: nat, k: nat)
    requires n > 0
  {
    clock + k <= WORD || WORD % n == 0 || (clock + k - WORD) % n == 0
  }

  lemma VisitsEven(n: nat, clock: nat, r: nat, k: nat, i: nat)
    requires i < n && k == r * n < WORD && clock < WORD && Even(n, clock, k)
    ensures Visits(n, clock, k, i) == r
  {
    if clock + k <= WORD {
      BelowRounds(n, clock, r, k, i);
      VisitsStraight(n, clock, k, i);
    } else {
      VisitsWrap(n, clock, r, k, i);
      var m, w := clock + k - WORD, WORD % n;
      if w != 0 {
        DivParts(m, n);
        BelowMultiple(n, m / n, 0, i);
        BelowMultiple(n, m / n, w, i);
      }
    }
  }

  /** A wrap costs a frame at most one visit. */
  lemma VisitsAtLeast(n: nat, clock: nat, r: nat, k: nat, i: nat)
    requires i < n && k == r * n < WORD && clock < WORD
    ensures r <= Visits(n, clock, k, i) + 1
  {
    if clock + k <= WORD {
      VisitsEven(n, clock, r, k, i);
    } else {
      hide Below, Visits;
      VisitsWrap(n, clock, r, k, i);
      var m, w := clock + k - WORD, WORD % n;
      BelowGrows(n, w + m, m + n, i);
      BelowPeriod(n, m, i);
    }
  }

  /** The frame an uneven wrap cheats of a visit. */
  function Cheated(n: nat, clock: nat, k: nat): nat
    requires n > 0 && clock + k >= WORD
  {
    var w, rest := WORD % n, (clock + k - WORD) % n;
    if w > rest then w else rest
  }

  lemma VisitsUneven(n: nat, clock: nat, r: nat, k: nat)
    requires n > 0 && k == r * n < WORD && clock < WORD && !Even(n, clock, k)
    ensures Cheated(n, clock, k) < n && Visits(n, clock, k, Cheated(n, clock, k)) < r
  {
    hide Below, Visits, Even, Cheated;
    Remainders(n, clock, k);
    var i, m, w := Cheated(n, clock, k), clock + k - WORD, WORD % n;
    var q, rest := m / n, m % n;
    VisitsWrap(n, clock, r, k, i);
    UnevenCount(n, q, rest, w, m, i);
  }

  lemma Remainders(n: nat, clock: nat, k: nat)
    requires n > 0 && !Even(n, clock, k)
    ensures clock + k > WORD
    ensures var m, w := clock + k - WORD, WORD % n;
            && m == m / n * n + m % n && 0 < m % n < n && 0 < w < n
            && Cheated(n, clock, k) == if w > m % n then w else m % n
  {
    DivParts(clock + k - WORD, n);
  }

  lemma UnevenCount(n: nat, q: nat, rest: nat, w: nat, m: nat, i: nat)
    requires 0 < w < n && 0 < rest < n && m == q * n + rest && i == if w > rest then w else rest
    ensures Below(n, w + m, i) > Below(n, m, i) + Below(n, w, i)
  {
    hide Below;
    BelowMultiple(n, q, rest, i);
    BelowMultiple(n, q, w + rest, i);
    BelowSmall(n, rest, i);
    BelowSmall(n, w, i);
    BelowGrows(n, i + 1, w + rest, i);
    BelowSmall(n, i + 1, i);
  }

  // ----------------------------------------------- calls one after another

  /** Calls of the sweep one after another, up to the first that finds a victim. */
  function Calls(ds: seq<Descriptor>, clock: nat, calls: nat): (found: bool)
    requires |ds| > 0
    decreases calls
  {
    calls > 0 &&
    (Sweep(ds, clock, 2 * |ds|).victim.Some? ||
     Calls(Sweep(ds, clock, 2 * |ds|).descriptors, Sweep(ds, clock, 2 * |ds|).clock, calls - 1))
  }

  /** A sweep goes on where a shorter one stopped. */
  lemma {:induction false} SweepSplit(ds: seq<Descriptor>, clock: nat, a: nat, b: nat)
    requires |ds| > 0
    ensures var r := Sweep(ds, clock, a);
            Sweep(ds, clock, a + b) == if r.victim.Some? then r else Sweep(r.descriptors, r.clock, b)
    decreases a
  {
    if a > 0 {
      var hand, next := clock % |ds|, Next(clock);
      if ds[hand].pins > 0 {
        SweepSplit(ds, next, a - 1, b);
      } else if ds[hand].usage > 0 {
        SweepSplit(ds[hand := Used(ds[hand], ds[hand].usage - 1)], next, a - 1, b);
      }
    }
  }

  /** So the calls find a victim exactly when one sweep of as many ticks does. */
  lemma {:induction false} CallsAreOneSweep(ds: seq<Descriptor>, clock: nat, calls: nat, k: nat)
    requires |ds| > 0 && k == 2 * calls * |ds|
    ensures Calls(ds, clock, calls) <==> Sweep(ds, clock, k).victim.Some?
    decreases calls
  {
    if calls > 0 {
      var n := |ds|;
      var rest := 2 * (calls - 1) * n;
      assert k == 2 * n + rest by { Distribute(2, 2 * (calls - 1), n); }
      var r := Sweep(ds, clock, 2 * n);
      SweepSplit(ds, clock, 2 * n, rest);
      CallsAreOneSweep(r.descriptors, r.clock, calls - 1, rest);
    }
  }

  // ------------------------------------------------------------ the theorems

  /** That many calls find a victim exactly when an unpinned frame was used less than twice for each. */
  ghost predicate Rule(ds: seq<Descriptor>, clock: nat, calls: nat)
    requires |ds| > 0 && calls > 0
  {
    Calls(ds, clock, calls) <==> exists i: nat :: Spent(ds, i, calls)
  }

  lemma EvictsIff(ds: seq<Descriptor>, clock: nat, calls: nat, k: nat)
    requires 0 < |ds| && 0 < calls && k == 2 * calls * |ds| < WORD && clock < WORD && Even(|ds|, clock, k)
    ensures Rule(ds, clock, calls)
  {
    var n := |ds|;
    CallsAreOneSweep(ds, clock, calls, k);
    SweepTakes(ds, clock, k);
    hide Visits, Sweep, Calls, Even;
    forall i: nat | i < n ensures Takes(ds, clock, k, i) <==> Spent(ds, i, calls) {
      VisitsEven(n, clock, 2 * calls, k, i);
    }
    if i: nat :| Spent(ds, i, calls) { assert Takes(ds, clock, k, i); }
    if i: nat :| Takes(ds, clock, k, i) { assert Spent(ds, i, calls); }
  }

  /** Usage counts have 8 bits. */
  predicate Counted(ds: seq<Descriptor>) {
    forall i :: 0 <= i < |ds| ==> ds[i].usage <= 255
  }

  /** With more than 128 calls every unpinned frame is used up, wrap or no wrap. */
  lemma ManyCalls(ds: seq<Descriptor>, clock: nat, calls: nat, k: nat)
    requires 0 < |ds| && 128 < calls && k == 2 * calls * |ds| < WORD && clock < WORD && Counted(ds)
    ensures Rule(ds, clock, calls)
  {
    CallsAreOneSweep(ds, clock, calls, k);
    SweepTakes(ds, clock, k);
    hide Visits, Sweep, Calls;
    if i: nat :| Spent(ds, i, calls) {
      VisitsAtLeast(|ds|, clock, 2 * calls, k, i);
      assert Takes(ds, clock, k, i);
    }
    if i: nat :| Takes(ds, clock, k, i) { assert Spent(ds, i, calls); }
  }

  /** A state in which the rule fails: every frame holds a page, and the one unpinned is passed once too seldom. */
  function Witness(n: nat, cheated: nat, usage: nat): (ds: seq<Descriptor>)
    ensures |ds| == n
  {
    seq(n, i requires 0 <= i < n => Descriptor(Some(i), false, if i == cheated then 0 else 1, usage))
  }

  /** All others are pinned, so the calls find nothing. */
  lemma WitnessFails(n: nat, clock: nat, calls: nat, k: nat)
    requires 0 < n && 0 < calls && k == 2 * calls * n < WORD && clock < WORD && !Even(n, clock, k)
    ensures Cheated(n, clock, k) < n
    ensures !Calls(Witness(n, Cheated(n, clock, k), 2 * calls - 1), clock, calls)
  {
    var i := Cheated(n, clock, k);
    var ds := Witness(n, i, 2 * calls - 1);
    VisitsUneven(n, clock, 2 * calls, k);
    CallsAreOneSweep(ds, clock, calls, k);
    SweepTakes(ds, clock, k);
  }

  /**
   * The rule holds for every state of the descriptors if and only if the hand does not wrap unevenly, or
   * there are more than 128 calls.
   */
  lemma EvictionRuleExact(n: nat, clock: nat, calls: nat, k: nat)
    requires 0 < n && 0 < calls && k == 2 * calls * n < WORD && clock < WORD
    ensures Even(n, clock, k) || calls > 128
       <==> forall ds: seq<Descriptor> :: |ds| == n && Counted(ds) ==> Rule(ds, clock, calls)
  {
    hide Calls;
    if Even(n, clock, k) || calls > 128 {
      forall ds: seq<Descriptor> | |ds| == n && Counted(ds) ensures Rule(ds, clock, calls) {
        if Even(n, clock, k) { EvictsIff(ds, clock, calls, k); } else { ManyCalls(ds, clock, calls, k); }
      }
    } else {
      WitnessFails(n, clock, calls, k);
      var ds := Witness(n, Cheated(n, clock, k), 2 * calls - 1);
      assert Spent(ds, Cheated(n, clock, k), calls) && Counted(ds);
      assert !Rule(ds, clock, calls);
    }
  }

  /** An uneven wrap does occur: three frames, the hand two short of the end of the word. */
  lemma UnevenExists()
    ensures !Even(3, WORD - 2, 6) && !Rule(Witness(3, 1, 1), WORD - 2, 1)
    ensures WORD - 2 == 0xFFFF_FFFF_FFFF_FFFE && Next(Next(WORD - 2)) == 0
  {
    WitnessFails(3, WORD - 2, 1, 6);
    assert Cheated(3, WORD - 2, 6) == 1;
    assert Spent(Witness(3, 1, 1), 1, 1);
  }

  /** A failed call lowers the count of every unpinned frame by exactly 2 and changes nothing else. */
  lemma FailureAges(ds: seq<Descriptor>, clock: nat, i: nat)
    requires i < |ds| && 2 * |ds| < WORD && clock < WORD && Even(|ds|, clock, 2 * |ds|)
    requires Sweep(ds, clock, 2 * |ds|).victim.None?
    ensures ds[i].pins > 0 ==> Sweep(ds, clock, 2 * |ds|).descriptors[i] == ds[i]
    ensures ds[i].pins == 0 ==> ds[i].usage >= 2
    ensures ds[i].pins == 0 ==> Sweep(ds, clock, 2 * |ds|).descriptors[i] == Used(ds[i], ds[i].usage - 2)
  {
    SweepAges(ds, clock, 2 * |ds|, i);
    VisitsEven(|ds|, clock, 2, 2 * |ds|, i);
  }

  /** Some frame is unpinned, with a count that fits 8 bits. */
  ghost predicate Evictable(ds: seq<Descriptor>) {
    exists i: nat :: Spent(ds, i, 128)
  }

  /** Wherever the hand is, 129 calls in a row find a victim when some frame is unpinned. */
  lemma EvictsWithin129(ds: seq<Descriptor>, clock: nat)
    requires 258 * |ds| < WORD && clock < WORD && Evictable(ds)
    ensures |ds| > 0 && Calls(ds, clock, 129)
  {
    var i: nat :| Spent(ds, i, 128);
    var k := 258 * |ds|;
    VisitsAtLeast(|ds|, clock, 258, k, i);
    assert Takes(ds, clock, k, i);
    SweepTakes(ds, clock, k);
    CallsAreOneSweep(ds, clock, 129, k);
  }

  /** 128 calls are enough in every state if and only if the hand does not wrap unevenly during them. */
  lemma EvictsWithin128Exact(n: nat, clock: nat)
    requires 0 < n && 256 * n < WORD && clock < WORD
    ensures Even(n, clock, 256 * n)
       <==> forall ds: seq<Descriptor> :: |ds| == n && Counted(ds) && Evictable(ds) ==> Calls(ds, clock, 128)
  {
    var k := 256 * n;
    hide Calls;
    if Even(n, clock, k) {
      forall ds: seq<Descriptor> | |ds| == n && Counted(ds) && Evictable(ds) ensures Calls(ds, clock, 128) {
        EvictsIff(ds, clock, 128, k);
      }
    } else {
      WitnessFails(n, clock, 128, k);
      var ds := Witness(n, Cheated(n, clock, k), 255);
      assert Spent(ds, Cheated(n, clock, k), 128);
      assert Evictable(ds) && Counted(ds);
    }
  }
}
