// How many bits are buffered while decoding goes on behind the end of the input, where it is fed zero
// bytes: the rounds that copy nothing may go on forever.
module IdleRounds {

  const BUFFER_BITS := 32

  // Filling the buffer byte by byte until it has more than 24 bits.
  function Filled(b: nat): (r: nat)
    ensures b <= BUFFER_BITS ==> b <= r <= BUFFER_BITS
  {
    if b <= 24 then b + 8 * ((BUFFER_BITS - b) / 8) else b
  }

  lemma FilledStep(b: nat)
    requires b <= 24
    ensures Filled(b) == Filled(b + 8)
    ensures b + 8 > 24 ==> Filled(b + 8) == b + 8
  {}

  // Bits left after taking n, up to 24, with a fill if there are fewer.
  function Received(b: nat, n: nat): nat {
    var c := if b < n then Filled(b) else b;
    if c < n then 0 else c - n
  }

  lemma NoneReceived(b: nat)
    ensures Received(b, 0) == b
  {}

  // Bits there are to decode a symbol.
  function Primed(b: nat): nat {
    if b < 16 then Filled(b) else b
  }

  // Bits left after a symbol with a code of n bits.
  function AfterCode(b: nat, n: nat): nat {
    if Primed(b) < n then 0 else Primed(b) - n
  }

  datatype Left = Out | Left(n: nat)

  // What a round takes: two codes and some extra bits.
  datatype Pace = Pace(l: nat, d: nat, e: nat)

  // Behind the end of the input both codes need 16 buffered bits; extra bits are filled up.
  function Round(c: Pace, b: nat): Left {
    if b < 16 || b < c.l + 16 || b < c.l + c.d then Out
    else Left(Received(b - c.l - c.d, c.e))
  }

  ghost function Orbit(c: Pace, b: nat, k: nat): Left {
    if k == 0 then Left(b)
    else match Orbit(c, b, k - 1)
      case Out => Out
      case Left(n) => Round(c, n)
  }

  ghost predicate Endless(c: Pace, b: nat) {
    forall k: nat :: Orbit(c, b, k).Left?
  }

  lemma {:induction false} OrbitFrom(c: Pace, b: nat, j: nat, k: nat)
    requires Orbit(c, b, j).Left?
    ensures Orbit(c, b, j + k) == Orbit(c, Orbit(c, b, j).n, k)
    decreases k
  {
    if k > 0 { OrbitFrom(c, b, j, k - 1); }
  }

  lemma {:induction false} OrbitBefore(c: Pace, b: nat, j: nat, k: nat)
    requires j <= k && Orbit(c, b, k).Left?
    ensures Orbit(c, b, j).Left?
    decreases k
  {
    if j < k { OrbitBefore(c, b, j, k - 1); }
  }

  // Rounds that lead back to where they began never end.
  lemma CycleIsEndless(c: Pace, b: nat, m: nat)
    requires m > 0 && Orbit(c, b, m) == Left(b)
    ensures Endless(c, b)
  {
    forall k: nat ensures Orbit(c, b, k).Left? { Around(c, b, m, k); }
  }

  lemma SameAgain(c: Pace, b: nat)
    requires Round(c, b) == Left(b)
    ensures Endless(c, b)
  {
    hide Round;
    assert Orbit(c, b, 0) == Left(b);
    assert Orbit(c, b, 1) == Round(c, b);
    CycleIsEndless(c, b, 1);
  }

  lemma {:induction false} Around(c: Pace, b: nat, m: nat, k: nat)
    requires m > 0 && Orbit(c, b, m) == Left(b)
    ensures Orbit(c, b, k).Left?
    decreases k
  {
    if k <= m {
      OrbitBefore(c, b, k, m);
    } else {
      OrbitFrom(c, b, m, k - m);
      Around(c, b, m, k - m);
    }
  }

  // Endless rounds stay endless.
  lemma EndlessNext(c: Pace, b: nat)
    requires Endless(c, b)
    ensures Round(c, b).Left? && Endless(c, Round(c, b).n)
  {
    assert Orbit(c, b, 0) == Left(b);
    assert Orbit(c, b, 1) == Round(c, b);
    forall k: nat ensures Orbit(c, Round(c, b).n, k).Left? {
      OrbitFrom(c, b, 1, k);
    }
  }

  // ---------- counting the rounds ----------

  // The buffered bits at the starts of consecutive rounds, the last of which left b.
  ghost predicate Trail(c: Pace, seen: seq<nat>, b: nat) {
    && b <= BUFFER_BITS
    && (forall i :: 0 <= i < |seen| ==> seen[i] <= BUFFER_BITS)
    && (forall i :: 0 <= i < |seen| ==> Round(c, seen[i]) == Left(if i + 1 < |seen| then seen[i + 1] else b))
    && (forall i, j :: 0 <= i < j < |seen| ==> seen[i] != seen[j])
  }

  lemma {:induction false} TrailOrbit(c: Pace, seen: seq<nat>, b: nat, i: nat, k: nat)
    requires Trail(c, seen, b) && i + k <= |seen| && i < |seen|
    ensures Orbit(c, seen[i], k) == Left(if i + k < |seen| then seen[i + k] else b)
    decreases k
  {
    if k > 0 { TrailOrbit(c, seen, b, i, k - 1); }
  }

  lemma BackAgain(c: Pace, seen: seq<nat>, b: nat)
    requires Trail(c, seen, b) && b in seen
    ensures Endless(c, b)
  {
    var i :| 0 <= i < |seen| && seen[i] == b;
    TrailOrbit(c, seen, b, i, |seen| - i);
    CycleIsEndless(c, b, |seen| - i);
  }

  // Of distinct numbers below n there are at most n.
  lemma {:induction false} FewDistinct(seen: seq<nat>, n: nat)
    requires forall i :: 0 <= i < |seen| ==> seen[i] < n
    requires forall i, j :: 0 <= i < j < |seen| ==> seen[i] != seen[j]
    ensures |seen| <= n
    decreases n
  {
    if seen != [] {
      var first := seen[0];
      if k :| 0 <= k < |seen| && seen[k] == n - 1 {
        FewDistinct(seen[..k] + seen[k + 1..], n - 1);
      } else {
        FewDistinct(seen, n - 1);
      }
    }
  }

  lemma ShortTrail(c: Pace, seen: seq<nat>, b: nat)
    requires Trail(c, seen, b)
    ensures |seen| <= BUFFER_BITS + 1
  {
    FewDistinct(seen, BUFFER_BITS + 1);
  }

  lemma TrailAt(c: Pace, seen: seq<nat>, b: nat, i: nat)
    requires Trail(c, seen, b) && i < |seen|
    ensures Round(c, seen[i]) == Left(if i + 1 < |seen| then seen[i + 1] else b)
  {
    hide Round;
  }

  lemma LongerTrail(c: Pace, seen: seq<nat>, b: nat, b': nat)
    requires Trail(c, seen, b) && b !in seen && Round(c, b) == Left(b') && b' <= BUFFER_BITS
    ensures Trail(c, seen + [b], b')
  {
    hide Round;
    var longer := seen + [b];
    forall i | 0 <= i < |longer|
      ensures Round(c, longer[i]) == Left(if i + 1 < |longer| then longer[i + 1] else b')
    {
      if i < |seen| {
        TrailAt(c, seen, b, i);
        assert longer[i] == seen[i];
        if i + 1 < |seen| { assert longer[i + 1] == seen[i + 1]; }
      }
    }
  }

  // The rounds are endless exactly if as many of them as there are numbers of buffered bits do not end.
  lemma EndlessIff(c: Pace, b: nat)
    requires b <= BUFFER_BITS
    ensures Endless(c, b) <==> Orbit(c, b, BUFFER_BITS + 1).Left?
  {
    if Orbit(c, b, BUFFER_BITS + 1).Left? {
      LongOrbit(c, b, b, 0, []);
    }
  }

  lemma RoundBound(c: Pace, b: nat)
    requires b <= BUFFER_BITS
    ensures Round(c, b).Left? ==> Round(c, b).n <= BUFFER_BITS
  {}

  lemma {:induction false} LongOrbit(c: Pace, b0: nat, b: nat, k: nat, seen: seq<nat>)
    requires k == |seen| <= BUFFER_BITS + 1 && Orbit(c, b0, BUFFER_BITS + 1).Left? && Orbit(c, b0, k) == Left(b)
    requires Trail(c, seen, b)
    ensures Endless(c, b0)
    decreases BUFFER_BITS + 2 - k
  {
    hide Round;
    if b in seen {
      BackAgain(c, seen, b);
      forall m: nat ensures Orbit(c, b0, m).Left? {
        if m <= k { OrbitBefore(c, b0, m, k); } else { OrbitFrom(c, b0, k, m - k); }
      }
    } else {
      if k <= BUFFER_BITS {
        OrbitBefore(c, b0, k + 1, BUFFER_BITS + 1);
        RoundBound(c, b);
        LongerTrail(c, seen, b, Round(c, b).n);
        LongOrbit(c, b0, Round(c, b).n, k + 1, seen + [b]);
      } else {
        FewDistinct(seen + [b], BUFFER_BITS + 1);
      }
    }
  }

  // Without two extra bits at least the buffer runs out.
  lemma {:induction false} RunsOut(c: Pace, b: nat)
    requires c.l > 0 && c.d > 0 && c.l <= 15 && c.d <= 15 && c.e <= 1 && b <= BUFFER_BITS
    ensures !Endless(c, b)
    decreases b
  {
    if Endless(c, b) {
      EndlessNext(c, b);
      RunsOut(c, Round(c, b).n);
    }
  }
}
