/**
 * The retry policy shared by the barcode and the storno readers
 * (`acquire_keyboard_fd` and `acquire_storno_fd` run the same loop).
 *
 * An acquisition episode waits `d` seconds before every attempt to open
 * the device. The first episode of a reader starts with `d = 0`, every
 * later one with `d = 1`; after a failed attempt `0` becomes `1` and any
 * other delay doubles, capped at 4 seconds.
 */
module Backoff {
  import opened Common

  /** Largest delay, in seconds. */
  const MaxDelay: nat := 4

  /** The delays the policy can ever request. */
  predicate Allowed(d: nat) {
    d == 0 || d == 1 || d == 2 || d == 4
  }

  /** The delay before the next attempt, after an attempt that waited `d` seconds failed. */
  function NextDelay(d: nat): (n: nat)
    ensures Allowed(d) ==> Allowed(n) && n != 0
    ensures d <= MaxDelay ==> n <= MaxDelay
    ensures d < MaxDelay ==> d < n
  {
    if d == 0 then 1 else if d * 2 > MaxDelay then MaxDelay else d * 2
  }

  /**
   * The delay the episode starts with: the stored first delay, taken out
   * of its slot (`take`), or 1 second once it has been taken.
   */
  function EpisodeStart(first: Option<nat>): (d: nat)
    ensures first == Some(0) ==> d == 0
    ensures first == None ==> d == 1
  {
    first.UnwrapOr(1)
  }

  /** The delays requested before `n` successive attempts of one episode that starts at `d`. */
  function Delays(d: nat, n: nat): (ds: seq<nat>)
    decreases n
  {
    if n == 0 then [] else [d] + Delays(NextDelay(d), n - 1)
  }

  /**
   * The number of attempts one episode makes, given the outcome of every
   * attempt the device would allow (`true` = opened): every attempt up to
   * and including the first success, or all of them when none succeeds.
   */
  function AttemptsMade(opens: seq<bool>): (k: nat)
    ensures k <= |opens|
    ensures forall i :: 0 <= i < k - 1 ==> !opens[i]
    ensures true in opens <==> 0 < k && opens[k - 1]
    ensures true !in opens ==> k == |opens|
    decreases |opens|
  {
    if opens == [] then 0
    else if opens[0] then 1
    else 1 + AttemptsMade(opens[1..])
  }

  /** Where the closed form of the sequence starting at 0 stands after `i` attempts. */
  function FirstEpisodeDelay(i: nat): (d: nat) {
    if i == 0 then 0 else if i == 1 then 1 else if i == 2 then 2 else 4
  }

  /** Where the closed form of the sequence starting at 1 stands after `i` attempts. */
  function LaterEpisodeDelay(i: nat): (d: nat) {
    if i == 0 then 1 else if i == 1 then 2 else 4
  }

  lemma {:induction false} DelaysLength(d: nat, n: nat)
    ensures |Delays(d, n)| == n
    decreases n
  {
    if n > 0 {
      DelaysLength(NextDelay(d), n - 1);
    }
  }

  /** Element `i` of `Delays(d, n)` is element `i - 1` of the sequence that starts one step later. */
  lemma DelaysAt(d: nat, n: nat, i: nat)
    requires i < n
    ensures |Delays(d, n)| == n
    ensures Delays(d, n)[i] == if i == 0 then d else Delays(NextDelay(d), n - 1)[i - 1]
  {
    DelaysLength(d, n);
  }

  /** The first episode requests 0, 1, 2, 4, 4, ... seconds. */
  lemma {:induction false} FirstEpisodeSequence(n: nat)
    ensures |Delays(0, n)| == n
    ensures forall i :: 0 <= i < n ==> Delays(0, n)[i] == FirstEpisodeDelay(i)
  {
    DelaysLength(0, n);
    forall i | 0 <= i < n
      ensures Delays(0, n)[i] == FirstEpisodeDelay(i)
    {
      DelaysAt(0, n, i);
      if i > 0 {
        LaterEpisodeSequence(n - 1);
      }
    }
  }

  /** Every later episode requests 1, 2, 4, 4, ... seconds. */
  lemma {:induction false} LaterEpisodeSequence(n: nat)
    ensures |Delays(1, n)| == n
    ensures forall i :: 0 <= i < n ==> Delays(1, n)[i] == LaterEpisodeDelay(i)
  {
    DelaysLength(1, n);
    forall i | 0 <= i < n
      ensures Delays(1, n)[i] == LaterEpisodeDelay(i)
    {
      DelaysAt(1, n, i);
      if i > 0 {
        DelaysLength(2, n - 1);
        DelaysAt(2, n - 1, i - 1);
        if i > 1 {
          CappedSequence(n - 2);
          assert Delays(2, n - 1)[i - 1] == Delays(4, n - 2)[i - 2];
        }
      }
    }
  }

  /** Once the delay reaches the cap it stays there. */
  lemma {:induction false} CappedSequence(n: nat)
    ensures |Delays(MaxDelay, n)| == n
    ensures forall i :: 0 <= i < n ==> Delays(MaxDelay, n)[i] == MaxDelay
    decreases n
  {
    DelaysLength(MaxDelay, n);
    if n > 0 {
      CappedSequence(n - 1);
      forall i | 0 <= i < n
        ensures Delays(MaxDelay, n)[i] == MaxDelay
      {
        DelaysAt(MaxDelay, n, i);
      }
    }
  }

  /** Every requested delay is one of 0, 1, 2 and 4 seconds. */
  lemma {:induction false} DelaysAllowed(d: nat, n: nat)
    requires Allowed(d)
    ensures forall x :: x in Delays(d, n) ==> Allowed(x)
    decreases n
  {
    if n > 0 {
      DelaysAllowed(NextDelay(d), n - 1);
    }
  }

  /** Only the very first attempt of an episode that starts at 0 waits 0 seconds. */
  lemma {:induction false} ZeroOnlyFirst(d: nat, n: nat)
    requires Allowed(d)
    ensures forall i :: 0 < i < |Delays(d, n)| ==> Delays(d, n)[i] != 0
    ensures d != 0 ==> 0 !in Delays(d, n)
    decreases n
  {
    if n > 0 {
      ZeroOnlyFirst(NextDelay(d), n - 1);
      assert Delays(d, n) == [d] + Delays(NextDelay(d), n - 1);
    }
  }

  /** The delays of two pieces of one episode join up. */
  lemma {:induction false} DelaysSplit(d: nat, m: nat, n: nat)
    ensures Delays(d, m + n) == Delays(d, m) + Delays(Last(d, m), n)
    decreases m
  {
    if m > 0 {
      DelaysSplit(NextDelay(d), m - 1, n);
    }
  }

  /** The delay after `m` failed attempts of an episode that started at `d`. */
  function Last(d: nat, m: nat): (r: nat)
    ensures Allowed(d) ==> Allowed(r)
    decreases m
  {
    if m == 0 then d else Last(NextDelay(d), m - 1)
  }

  /** One more step of `Delays` at its end. */
  lemma DelaysSnoc(d: nat, m: nat)
    ensures Delays(d, m + 1) == Delays(d, m) + [Last(d, m)]
    ensures Last(d, m + 1) == NextDelay(Last(d, m))
  {
    DelaysSplit(d, m, 1);
    LastStep(d, m);
  }

  lemma {:induction false} LastStep(d: nat, m: nat)
    ensures Last(d, m + 1) == NextDelay(Last(d, m))
    decreases m
  {
    if m > 0 {
      LastStep(NextDelay(d), m - 1);
    }
  }

  // ---------------------------------------------------------------------
  // One acquisition episode of a reader

  /**
   * What the acquisition loop keeps of a reader: whether it holds the
   * device, and the first delay while it has not been taken yet.
   */
  datatype Holding = Holding(held: bool, first: Option<nat>)

  /**
   * The first delay is either still the initial 0 or has been taken, and
   * it has been taken once the device is held.
   */
  predicate Consistent(h: Holding) {
    (h.first == Some(0) || h.first == None) && (h.held ==> h.first == None)
  }

  /** The outcome of acquisition: the reader afterwards, the attempts made and the delay before each. */
  datatype Acquired = Acquired(after: Holding, attempts: nat, delays: seq<nat>)

  /**
   * `acquire_*_fd`: nothing happens while the device is held; otherwise
   * the first delay is taken and attempts are made, each after its delay,
   * until one opens the device or the outcomes in `opens` run out.
   */
  function Acquire(h: Holding, opens: seq<bool>): (r: Acquired)
    ensures h.held ==> r.after == h && r.attempts == 0 && r.delays == []
    ensures !h.held ==> r.after.first == None
    ensures r.after.held <==> h.held || true in opens
    ensures r.attempts <= |opens| && |r.delays| == r.attempts
    ensures forall i :: 0 <= i < r.attempts - 1 ==> !opens[i]
    ensures !h.held && r.after.held ==> 0 < r.attempts && opens[r.attempts - 1]
    ensures !r.after.held ==> r.attempts == |opens|
    ensures !h.held ==> r.delays == Delays(EpisodeStart(h.first), r.attempts)
    ensures Consistent(h) ==> Consistent(r.after)
  {
    if h.held then Acquired(h, 0, [])
    else
      var k := AttemptsMade(opens);
      DelaysLength(EpisodeStart(h.first), k);
      Acquired(Holding(true in opens, None), k, Delays(EpisodeStart(h.first), k))
  }

  /**
   * The delays of an acquisition are 0, 1, 2, 4, 4, ... when the first
   * delay has not been taken, 1, 2, 4, 4, ... otherwise; each is one of
   * 0, 1, 2 and 4, and only the very first attempt of a reader waits 0.
   */
  lemma AcquireDelays(h: Holding, opens: seq<bool>)
    requires Consistent(h)
    ensures forall x :: x in Acquire(h, opens).delays ==> Allowed(x)
    ensures forall i :: 0 <= i < |Acquire(h, opens).delays| && Acquire(h, opens).delays[i] == 0 ==> i == 0 && h.first == Some(0)
    ensures !h.held && h.first == Some(0) ==>
              forall i :: 0 <= i < |Acquire(h, opens).delays| ==> Acquire(h, opens).delays[i] == FirstEpisodeDelay(i)
    ensures !h.held && h.first == None ==>
              forall i :: 0 <= i < |Acquire(h, opens).delays| ==> Acquire(h, opens).delays[i] == LaterEpisodeDelay(i)
  {
    if !h.held {
      var d := EpisodeStart(h.first);
      var k := AttemptsMade(opens);
      DelaysAllowed(d, k);
      ZeroOnlyFirst(d, k);
      if d == 0 {
        FirstEpisodeSequence(k);
      } else {
        LaterEpisodeSequence(k);
      }
    }
  }

  /** The attempts the acquisition loop made, when it stopped at a success or ran out of outcomes. */
  lemma AttemptsMadeAt(opens: seq<bool>, k: nat, success: bool)
    requires k <= |opens|
    requires forall j :: 0 <= j < k - 1 ==> !opens[j]
    requires !success ==> k == |opens| && forall j :: 0 <= j < k ==> !opens[j]
    requires success ==> 0 < k && opens[k - 1]
    ensures k == AttemptsMade(opens)
    ensures success <==> true in opens
  {
  }
}
