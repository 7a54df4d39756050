/**
 * The Secret Santa matcher: a bounded rejection-sampling search for a
 * derangement by Fisher-Yates shuffles, with a left rotation as fallback.
 */
module SecretSanta {
  import opened Wrappers
  import opened Sequences

  /** One pairing; `email` is absent until the email form annotates it. */
  datatype Match = Match(giver: string, receiver: string, email: Option<string>)

  const InsufficientParticipants: string := "At least 2 participants are required"
  const MaxAttempts: nat := 1000

  function Givers(ms: seq<Match>): (gs: seq<string>)
    ensures |gs| == |ms| && forall i :: 0 <= i < |ms| ==> gs[i] == ms[i].giver
  {
    seq(|ms|, i requires 0 <= i < |ms| => ms[i].giver)
  }

  function Receivers(ms: seq<Match>): (rs: seq<string>)
    ensures |rs| == |ms| && forall i :: 0 <= i < |ms| ==> rs[i] == ms[i].receiver
  {
    seq(|ms|, i requires 0 <= i < |ms| => ms[i].receiver)
  }

  /** `givers.every((giver, index) => giver !== receivers[index])` */
  predicate NoFixedPoint(givers: seq<string>, receivers: seq<string>)
    requires |givers| == |receivers|
  {
    forall i :: 0 <= i < |givers| ==> givers[i] != receivers[i]
  }

  /** Nobody in `ms` gives to themselves. */
  predicate NoSelfMatch(ms: seq<Match>)
  {
    NoFixedPoint(Givers(ms), Receivers(ms))
  }

  /** The fallback assignment `[...participants.slice(1), participants[0]]`. */
  function RotateLeft(s: seq<string>): (r: seq<string>)
    requires |s| >= 1
    ensures |r| == |s| && r[|s| - 1] == s[0]
    ensures forall i :: 0 <= i < |s| - 1 ==> r[i] == s[i + 1]
  {
    s[1..] + [s[0]]
  }

  /** `givers.map((giver, index) => ({ giver, receiver: receivers[index] }))` */
  function Pair(givers: seq<string>, receivers: seq<string>): (ms: seq<Match>)
    requires |givers| == |receivers|
    ensures Givers(ms) == givers && Receivers(ms) == receivers
    ensures forall i :: 0 <= i < |ms| ==> ms[i].email == None
  {
    seq(|givers|, i requires 0 <= i < |givers| => Match(givers[i], receivers[i], None))
  }

  /**
   * `ms` pairs every participant, in input order, as a giver with a receiver,
   * and the receivers are a rearrangement of the participants, so each one
   * also receives exactly once.
   */
  ghost predicate PairsEveryone(participants: seq<string>, ms: seq<Match>)
  {
    && Givers(ms) == participants
    && multiset(Receivers(ms)) == multiset(participants)
  }

  /** A valid Secret Santa draw: at least two distinct givers, each giving once and receiving once, never to themselves. */
  ghost predicate IsSecretSanta(ms: seq<Match>)
  {
    && |ms| >= 2
    && Distinct(Givers(ms))
    && multiset(Receivers(ms)) == multiset(Givers(ms))
    && NoSelfMatch(ms)
  }

  // ---------------------------------------------------------------------------
  // Fisher-Yates shuffle
  // ---------------------------------------------------------------------------

  /** `s` with the cells at `i` and `j` exchanged. */
  function Swap<T>(s: seq<T>, i: nat, j: nat): (r: seq<T>)
    requires i < |s| && j < |s|
    ensures |r| == |s|
  {
    s[i := s[j]][j := s[i]]
  }

  /** A swap exchanges the two cells, leaves every other cell alone, and keeps the elements. */
  lemma SwapSpec<T>(s: seq<T>, i: nat, j: nat)
    requires i < |s| && j < |s|
    ensures Swap(s, i, j)[i] == s[j] && Swap(s, i, j)[j] == s[i]
    ensures forall k :: 0 <= k < |s| && k != i && k != j ==> Swap(s, i, j)[k] == s[k]
    ensures multiset(Swap(s, i, j)) == multiset(s)
  {
  }

  /** The cells drawn by a shuffle so far, the latest last. */
  datatype Draws = NoDraws | Then(earlier: Draws, cell: int)

  function DrawCount(ds: Draws): nat
  {
    match ds
    case NoDraws => 0
    case Then(earlier, _) => DrawCount(earlier) + 1
  }

  /**
   * In a shuffle of `n` cells the draw made after `k` others is the cell
   * swapped with position `n - 1 - k`, so it lies in `[0, n - 1 - k]`.
   */
  predicate DrawsInRange(ds: Draws, n: nat)
  {
    match ds
    case NoDraws => true
    case Then(earlier, j) => DrawsInRange(earlier, n) && DrawCount(earlier) < n && 0 <= j <= n - 1 - DrawCount(earlier)
  }

  /** The sequence a Fisher-Yates shuffle of `s` produces after taking the draws `ds`. */
  function FisherYates<T>(s: seq<T>, ds: Draws): (r: seq<T>)
    requires DrawsInRange(ds, |s|)
    ensures |r| == |s|
  {
    match ds
    case NoDraws => s
    case Then(earlier, j) => Swap(FisherYates(s, earlier), |s| - 1 - DrawCount(earlier), j)
  }

  /** Whatever the draws, a Fisher-Yates shuffle rearranges its input. */
  lemma {:induction false} FisherYatesPermutes<T>(s: seq<T>, ds: Draws)
    requires DrawsInRange(ds, |s|)
    ensures multiset(FisherYates(s, ds)) == multiset(s)
  {
    match ds
    case NoDraws =>
    case Then(earlier, j) =>
      FisherYatesPermutes(s, earlier);
      SwapSpec(FisherYates(s, earlier), |s| - 1 - DrawCount(earlier), j);
  }

  /** `Math.floor(x * (i + 1))` for `0 <= x < 1` lies in `[0, i]`. */
  lemma ScaledFloorInRange(x: real, i: nat)
    requires 0.0 <= x < 1.0
    ensures 0 <= (x * (i + 1) as real).Floor <= i
  {
    var m := (i + 1) as real;
    assert 0.0 <= x * m;
    assert x * m < m by {
      assert (1.0 - x) * m > 0.0;
    }
    var f := (x * m).Floor;
    assert f as real <= x * m < f as real + 1.0;
    assert f as real < m;
    assert f < i + 1;
  }

  /** `Math.floor(Math.random() * (i + 1))`: some index in `[0, i]`, whatever `Math.random` returns. */
  method RandomIndex(i: nat) returns (j: int)
    ensures 0 <= j <= i
  {
    var x: real :| 0.0 <= x < 1.0;
    ScaledFloorInRange(x, i);
    j := (x * (i + 1) as real).Floor;
  }

  /**
   * `shuffleArray`: copies the input into a fresh array and, for `i` from the
   * last index down to 1, swaps cell `i` with a cell `j` drawn uniformly from
   * `[0, i]` by `Math.random`. The random number is an arbitrary choice, so
   * everything below holds for every outcome of the draws; the ghost `draws`
   * records the choices made.
   */
  method ShuffleArray<T(0)>(input: seq<T>) returns (shuffled: seq<T>, ghost draws: Draws)
    ensures DrawsInRange(draws, |input|)
    ensures DrawCount(draws) == if |input| == 0 then 0 else |input| - 1
    ensures shuffled == FisherYates(input, draws)
    ensures |shuffled| == |input| && multiset(shuffled) == multiset(input)
  {
    var a := new T[|input|](k requires 0 <= k < |input| => input[k]);
    var i := a.Length - 1;
    draws := NoDraws;
    while i > 0
      invariant -1 <= i < a.Length && (a.Length > 0 ==> 0 <= i)
      invariant a.Length == |input| && DrawCount(draws) == a.Length - 1 - i
      invariant DrawsInRange(draws, |input|)
      invariant a[..] == FisherYates(input, draws)
    {
      var j := RandomIndex(i);
      ghost var before := a[..];
      a[i], a[j] := a[j], a[i];
      SwapSpec(before, i, j);
      assert a[..] == Swap(before, i, j);
      draws := Then(draws, j);
      i := i - 1;
    }
    shuffled := a[..];
    FisherYatesPermutes(input, draws);
  }

  // ---------------------------------------------------------------------------
  // The fallback rotation
  // ---------------------------------------------------------------------------

  /** The rotation rearranges the participants. */
  lemma RotateLeftPermutes(s: seq<string>)
    requires |s| >= 1
    ensures multiset(RotateLeft(s)) == multiset(s)
  {
    assert s == [s[0]] + s[1..];
  }

  /** For two or more distinct names the rotation assigns nobody to themselves. */
  lemma RotateLeftNoFixedPoint(s: seq<string>)
    requires |s| >= 2 && Distinct(s)
    ensures NoFixedPoint(s, RotateLeft(s))
  {
    forall i | 0 <= i < |s| ensures s[i] != RotateLeft(s)[i] {
      if i < |s| - 1 {
        assert RotateLeft(s)[i] == s[i + 1];
      } else {
        assert RotateLeft(s)[i] == s[0];
      }
    }
  }

  /** Without distinct names the rotation can pair someone with themselves: `[A, A]` maps A to A. */
  lemma RotateLeftNeedsDistinct(a: string)
    ensures !NoFixedPoint([a, a], RotateLeft([a, a]))
  {
    assert RotateLeft([a, a])[0] == a;
  }

  // ---------------------------------------------------------------------------
  // The matcher
  // ---------------------------------------------------------------------------

  /**
   * `generateSecretSantaMatches`. Fewer than two participants is an error.
   * Otherwise up to `MaxAttempts` shuffles are drawn and the first one that
   * maps no index to itself is taken; if none is, the left rotation is used.
   * The ghost outputs report how many shuffles were drawn and whether the
   * fallback was taken.
   */
  method GenerateMatches(participants: seq<string>)
    returns (result: Result<seq<Match>>, ghost tries: nat, ghost fallback: bool)
    ensures |participants| < 2 <==> result.Err?
    ensures result.Err? ==> result.error == InsufficientParticipants
    ensures result.Ok? ==> PairsEveryone(participants, result.value)
    ensures result.Ok? ==> forall i :: 0 <= i < |result.value| ==> result.value[i].email == None
    ensures result.Ok? ==> 1 <= tries <= MaxAttempts
    ensures result.Ok? && !fallback ==> NoSelfMatch(result.value)
    ensures result.Ok? && fallback ==> tries == MaxAttempts && Receivers(result.value) == RotateLeft(participants)
    ensures result.Ok? && Distinct(participants) ==> NoSelfMatch(result.value)
  {
    tries, fallback := 0, false;
    if |participants| < 2 {
      return Err(InsufficientParticipants), tries, fallback;
    }
    var givers := participants;
    var receivers: seq<string> := [];
    var isValid := false;
    var attempts := 0;
    while !isValid && attempts < MaxAttempts
      invariant attempts <= MaxAttempts
      invariant isValid ==> 1 <= attempts
      invariant isValid ==> |receivers| == |givers| && multiset(receivers) == multiset(givers)
      invariant isValid ==> NoFixedPoint(givers, receivers)
      decreases MaxAttempts - attempts
    {
      ghost var draws;
      receivers, draws := ShuffleArray(participants);
      isValid := NoFixedPoint(givers, receivers);
      attempts := attempts + 1;
    }
    tries, fallback := attempts, !isValid;
    if !isValid {
      receivers := participants[1..] + [participants[0]];
      RotateLeftPermutes(participants);
      if Distinct(participants) {
        RotateLeftNoFixedPoint(participants);
      }
    }
    result := Ok(Pair(givers, receivers));
  }

  /**
   * With a repeated name `[A, A]`, every pairing of the participants pairs A
   * with A, so whatever the matcher returns has a self-match.
   */
  lemma SelfMatchUnavoidable(a: string, ms: seq<Match>)
    requires PairsEveryone([a, a], ms)
    ensures !NoSelfMatch(ms)
  {
    var rs := Receivers(ms);
    assert rs[0] in multiset(rs);
    assert Givers(ms)[0] == a == rs[0];
  }

  /**
   * Two distinct participants have exactly one valid draw: A gives to B and
   * B gives to A.
   */
  lemma TwoParticipantsSwap(a: string, b: string, ms: seq<Match>)
    requires a != b
    requires PairsEveryone([a, b], ms) && NoSelfMatch(ms)
    ensures Givers(ms) == [a, b] && Receivers(ms) == [b, a]
  {
    var rs := Receivers(ms);
    assert |rs| == 2 && rs[0] != a && rs[1] != b;
    assert a in multiset(rs) && b in multiset(rs);
    assert rs[1] == a && rs[0] == b;
  }

  /**
   * In a valid draw every participant gives exactly once and receives
   * exactly once.
   */
  lemma EveryoneGivesAndReceivesOnce(ms: seq<Match>, p: string)
    requires IsSecretSanta(ms) && p in Givers(ms)
    ensures multiset(Givers(ms))[p] == 1 && multiset(Receivers(ms))[p] == 1
  {
    DistinctOccursOnce(Givers(ms), p);
  }
}
