/** Shamir secret sharing of byte strings: one random polynomial per secret byte,
    evaluated at the share indices, recovered by Lagrange interpolation at zero. */
module Shamir {
  import opened Bytes
  import opened Gf256
  import opened Polynomials

  datatype Result<T> = Ok(value: T) | Err(error: ShamirError)

  datatype ShamirError =
    | ThresholdTooLow(threshold: nat)
    | InsufficientShares(threshold: nat, total: nat)
    | EmptySecret
    | NotEnoughShares(count: nat)
    | InconsistentShareLengths(expected: nat, got: nat)
    | DuplicateShareIndex(index: byte)

  /** Both fields are bytes in the source. */
  datatype ShamirConfig = ShamirConfig(threshold: nat, totalShares: nat)

  datatype Share = Share(index: byte, data: ByteString)

  function NewConfig(threshold: nat, total: nat): (r: Result<ShamirConfig>)
    requires threshold < 256 && total < 256
    ensures r.Ok? <==> 2 <= threshold <= total
    ensures r.Ok? ==> r.value.threshold == threshold && r.value.totalShares == total
    ensures threshold < 2 ==> r == Err(ThresholdTooLow(threshold))
    ensures 2 <= threshold && total < threshold ==> r == Err(InsufficientShares(threshold, total))
  {
    if threshold < 2 then Err(ThresholdTooLow(threshold))
    else if total < threshold then Err(InsufficientShares(threshold, total))
    else Ok(ShamirConfig(threshold, total))
  }

  // ---- Splitting ----

  /** `randomness` holds, for each secret byte, the `threshold - 1` higher coefficients. */
  ghost predicate Coefficients(secret: ByteString, randomness: seq<ByteString>, threshold: nat) {
    |randomness| == |secret| &&
    forall b :: 0 <= b < |randomness| ==> |randomness[b]| + 1 == threshold
  }

  function ShareAt(secret: ByteString, randomness: seq<ByteString>, index: byte): Share
    requires |randomness| == |secret|
  {
    Share(index, seq(|secret|, b requires 0 <= b < |secret| => Eval([secret[b]] + randomness[b], index)))
  }

  method SplitSecret(secret: ByteString, config: ShamirConfig, randomness: seq<ByteString>)
    returns (r: Result<seq<Share>>)
    requires config.totalShares < 256
    requires Coefficients(secret, randomness, config.threshold)
    ensures secret == [] ==> r == Err(EmptySecret)
    ensures secret != [] ==> r.Ok? && |r.value| == config.totalShares
    ensures secret != [] ==> forall i :: 0 <= i < |r.value| ==> r.value[i] == ShareAt(secret, randomness, i + 1)
    ensures secret != [] ==> forall i :: 0 <= i < |r.value| ==>
              && r.value[i].index == i + 1 && |r.value[i].data| == |secret|
              && forall b :: 0 <= b < |secret| ==> r.value[i].data[b] == Eval([secret[b]] + randomness[b], i + 1)
  {
    hide Eval;
    if secret == [] {
      return Err(EmptySecret);
    }
    var shares := seq(config.totalShares, i requires 0 <= i < config.totalShares => Share(i + 1, []));
    for b := 0 to |secret|
      invariant |shares| == config.totalShares
      invariant forall i :: 0 <= i < |shares| ==>
                  shares[i] == ShareAt(secret[..b], randomness[..b], i + 1)
    {
      var coefficients := [secret[b]] + randomness[b];
      ghost var before := shares;
      for i := 0 to |shares|
        invariant |shares| == |before|
        invariant forall k :: i <= k < |shares| ==> shares[k] == before[k]
        invariant forall k :: 0 <= k < i ==>
                    shares[k] == ShareAt(secret[..b + 1], randomness[..b + 1], k + 1)
      {
        var y := EvalPolynomial(coefficients, shares[i].index);
        shares := shares[i := shares[i].(data := shares[i].data + [y])];
        assert shares[i].data == ShareAt(secret[..b + 1], randomness[..b + 1], i + 1).data;
      }
    }
    assert secret[..|secret|] == secret && randomness[..|secret|] == randomness;
    r := Ok(shares);
  }

  // ---- Recovery ----

  function FirstBadLength(shares: seq<Share>, k: nat): (r: Option<nat>)
    requires 0 < |shares| && k <= |shares|
    ensures r.Some? ==> k <= r.value < |shares| && |shares[r.value].data| != |shares[0].data|
    ensures forall i :: k <= i < (if r.Some? then r.value else |shares|) ==> |shares[i].data| == |shares[0].data|
    decreases |shares| - k
  {
    if k == |shares| then None
    else if |shares[k].data| != |shares[0].data| then Some(k)
    else FirstBadLength(shares, k + 1)
  }

  predicate BadIndex(shares: seq<Share>, k: nat)
    requires k < |shares|
  {
    shares[k].index == 0 || exists j :: 0 <= j < k && shares[j].index == shares[k].index
  }

  function FirstBadIndex(shares: seq<Share>, k: nat): (r: Option<nat>)
    requires k <= |shares|
    ensures r.Some? ==> k <= r.value < |shares| && BadIndex(shares, r.value)
    ensures forall i :: k <= i < (if r.Some? then r.value else |shares|) ==> !BadIndex(shares, i)
    decreases |shares| - k
  {
    if k == |shares| then None
    else if BadIndex(shares, k) then Some(k)
    else FirstBadIndex(shares, k + 1)
  }

  function Indices(shares: seq<Share>): ByteString {
    seq(|shares|, i requires 0 <= i < |shares| => shares[i].index)
  }

  function Column(shares: seq<Share>, b: nat): ByteString
    requires forall i :: 0 <= i < |shares| ==> b < |shares[i].data|
  {
    seq(|shares|, i requires 0 <= i < |shares| => shares[i].data[b])
  }

  lemma GoodIndicesDistinct(shares: seq<Share>)
    requires forall i :: 0 <= i < |shares| ==> !BadIndex(shares, i)
    ensures NoDuplicates(Indices(shares))
  {
    forall i, j | 0 <= i < j < |shares|
      ensures Indices(shares)[i] != Indices(shares)[j]
    {
      assert !BadIndex(shares, j);
    }
  }

  function Recovered(shares: seq<Share>): (r: Result<ByteString>)
    ensures r.Ok? <==> |shares| >= 2
                       && (forall i :: 0 <= i < |shares| ==> |shares[i].data| == |shares[0].data|)
                       && (forall i :: 0 <= i < |shares| ==> !BadIndex(shares, i))
  {
    if |shares| < 2 then Err(NotEnoughShares(|shares|))
    else
      match FirstBadLength(shares, 1)
      case Some(k) => Err(InconsistentShareLengths(|shares[0].data|, |shares[k].data|))
      case None =>
        match FirstBadIndex(shares, 0)
        case Some(k) => Err(DuplicateShareIndex(shares[k].index))
        case None =>
          GoodIndicesDistinct(shares);
          Ok(seq(|shares[0].data|, b requires 0 <= b < |shares[0].data| =>
            Interpolate(Indices(shares), Column(shares, b), 0)))
  }

  method RecoverSecret(shares: seq<Share>) returns (r: Result<ByteString>)
    ensures r == Recovered(shares)
  {
    hide Interpolate;
    if |shares| < 2 {
      return Err(NotEnoughShares(|shares|));
    }
    var expectedLen := |shares[0].data|;
    for k := 1 to |shares|
      invariant forall i :: 0 <= i < k ==> |shares[i].data| == expectedLen
    {
      if |shares[k].data| != expectedLen {
        assert FirstBadLength(shares, 1) == Some(k);
        return Err(InconsistentShareLengths(expectedLen, |shares[k].data|));
      }
    }

    var seen := new bool[256](_ => false);
    for k := 0 to |shares|
      invariant forall i :: 0 <= i < k ==> !BadIndex(shares, i)
      invariant forall a: byte :: seen[a] <==> exists j :: 0 <= j < k && shares[j].index == a
    {
      var index := shares[k].index;
      if index == 0 || seen[index] {
        assert BadIndex(shares, k);
        assert FirstBadIndex(shares, 0) == Some(k);
        return Err(DuplicateShareIndex(index));
      }
      seen[index] := true;
      assert forall j :: 0 <= j < k + 1 ==> (j < k || shares[j].index == index);
    }

    GoodIndicesDistinct(shares);
    var xs := Indices(shares);
    var secret := [];
    for b := 0 to expectedLen
      invariant |secret| == b
      invariant forall c :: 0 <= c < b ==> secret[c] == Interpolate(xs, Column(shares, c), 0)
    {
      var recoveredByte := LagrangeInterpolateAtZero(xs, Column(shares, b));
      secret := secret + [recoveredByte];
    }
    assert FirstBadLength(shares, 1) == None && FirstBadIndex(shares, 0) == None;
    assert secret == Recovered(shares).value;
    r := Ok(secret);
  }

  // ---- Any `threshold` shares recover the secret ----

  lemma EvalAtZero(p: Poly)
    requires p != []
    ensures Eval(p, 0) == p[0]
  {
    hide Add, Mul;
    MulZero(Eval(p[1..], 0));
    AddZero(p[0]);
  }

  lemma SharesRecover(secret: ByteString, randomness: seq<ByteString>, threshold: nat, shares: seq<Share>)
    requires Coefficients(secret, randomness, threshold)
    requires |shares| >= 2 && |shares| >= threshold
    requires forall i :: 0 <= i < |shares| ==> shares[i] == ShareAt(secret, randomness, shares[i].index)
    requires forall i :: 0 <= i < |shares| ==> !BadIndex(shares, i)
    ensures Recovered(shares) == Ok(secret)
  {
    hide Eval, Interpolate;
    GoodIndicesDistinct(shares);
    var xs := Indices(shares);
    var out := Recovered(shares).value;
    forall b | 0 <= b < |secret|
      ensures out[b] == secret[b]
    {
      var p := [secret[b]] + randomness[b];
      InterpolationRecovers(p, xs, Column(shares, b), 0);
      EvalAtZero(p);
    }
    assert out == secret;
  }

  /** Split t-of-n with any 2 <= t <= n and any coefficients: there are n shares, and any t or
      more of them, in any order, recover exactly the secret. */
  lemma SplitRecoverRoundTrip(secret: ByteString, t: nat, n: nat, randomness: seq<ByteString>, shares: seq<Share>,
                              picks: seq<nat>)
    requires 2 <= t <= n < 256
    requires Coefficients(secret, randomness, NewConfig(t, n).value.threshold)
    requires |shares| == NewConfig(t, n).value.totalShares
    requires forall i :: 0 <= i < |shares| ==> shares[i] == ShareAt(secret, randomness, i + 1)
    requires |picks| >= t && forall k :: 0 <= k < |picks| ==> picks[k] < n
    requires forall j, k :: 0 <= j < k < |picks| ==> picks[j] != picks[k]
    ensures |shares| == n
    ensures Recovered(seq(|picks|, k requires 0 <= k < |picks| => shares[picks[k]])) == Ok(secret)
  {
    hide Eval, Recovered;
    var picked := seq(|picks|, k requires 0 <= k < |picks| => shares[picks[k]]);
    forall k | 0 <= k < |picked|
      ensures !BadIndex(picked, k)
    {
      assert forall j :: 0 <= j < k ==> picked[j].index == picks[j] + 1;
    }
    SharesRecover(secret, randomness, t, picked);
  }

  /** What recovery refuses, and how: too few shares, else the first share of another length,
      else the first with index zero or an index used before. */
  lemma RecoveryRefuses(shares: seq<Share>, k: nat)
    ensures |shares| < 2 ==> Recovered(shares) == Err(NotEnoughShares(|shares|))
    ensures 2 <= |shares| && k < |shares| && |shares[k].data| != |shares[0].data| &&
            (forall i :: 0 <= i < k ==> |shares[i].data| == |shares[0].data|) ==>
              Recovered(shares) == Err(InconsistentShareLengths(|shares[0].data|, |shares[k].data|))
    ensures 2 <= |shares| && k < |shares| && (forall i :: 0 <= i < |shares| ==> |shares[i].data| == |shares[0].data|) &&
            (shares[k].index == 0 || exists i :: 0 <= i < k && shares[i].index == shares[k].index) &&
            (forall i :: 0 <= i < k ==> !BadIndex(shares, i)) ==>
              Recovered(shares) == Err(DuplicateShareIndex(shares[k].index))
  {
    hide Interpolate;
    if 2 <= |shares| && k < |shares| {
      var first, second := FirstBadLength(shares, 1), FirstBadIndex(shares, 0);
      assert first.Some? ==> |shares[first.value].data| != |shares[0].data|;
      assert second.Some? ==> BadIndex(shares, second.value);
      assert BadIndex(shares, k) <==>
             shares[k].index == 0 || exists i :: 0 <= i < k && shares[i].index == shares[k].index;
      assert second.None? ==> !BadIndex(shares, k);
    }
  }

  // ---- `threshold - 1` shares fit every secret equally ----

  ghost predicate Produces(secret: ByteString, randomness: seq<ByteString>, shares: seq<Share>) {
    && Coefficients(secret, randomness, |shares| + 1)
    && forall k :: 0 <= k < |shares| ==> ShareAt(secret, randomness, shares[k].index) == shares[k]
  }

  lemma PrependZeroDistinct(shares: seq<Share>)
    requires forall i :: 0 <= i < |shares| ==> !BadIndex(shares, i)
    ensures NoDuplicates([0] + Indices(shares))
  {
    GoodIndicesDistinct(shares);
    forall i | 0 <= i < |shares|
      ensures Indices(shares)[i] != 0
    {
      assert !BadIndex(shares, i);
    }
  }

  /** The only coefficients with which byte `b` of a secret, being `s`, gives these shares. */
  function FittingTail(shares: seq<Share>, b: nat, s: byte): (tail: ByteString)
    requires forall i :: 0 <= i < |shares| ==> !BadIndex(shares, i) && b < |shares[i].data|
    ensures |tail| == |shares|
  {
    PrependZeroDistinct(shares);
    LagrangePoly([0] + Indices(shares), [s] + Column(shares, b), |shares| + 1)[1..]
  }

  lemma FittingTailFits(shares: seq<Share>, b: nat, s: byte)
    requires forall i :: 0 <= i < |shares| ==> !BadIndex(shares, i) && b < |shares[i].data|
    ensures forall k :: 0 <= k < |shares| ==>
              Eval([s] + FittingTail(shares, b, s), shares[k].index) == shares[k].data[b]
  {
    hide Eval, LagrangePoly, LagrangeSum;
    PrependZeroDistinct(shares);
    var xs, ys := [0] + Indices(shares), [s] + Column(shares, b);
    var p := LagrangePoly(xs, ys, |xs|);
    forall i | 0 <= i < |xs|
      ensures Eval(p, xs[i]) == ys[i]
    {
      EvalLagrangePoly(xs, ys, |xs|, xs[i]);
      LagrangeSumAtNode(xs, ys, |xs|, i);
    }
    assert xs[0] == 0;
    EvalAtZero(p);
    assert p == [s] + FittingTail(shares, b, s);
    forall k | 0 <= k < |shares|
      ensures Eval(p, shares[k].index) == shares[k].data[b]
    {
      assert xs[k + 1] == shares[k].index && ys[k + 1] == shares[k].data[b];
    }
  }

  /** Whatever the shares' data and whatever the candidate secret, exactly one choice of
      coefficients makes splitting that secret produce those `threshold - 1` shares. */
  lemma SharesFitEverySecret(shares: seq<Share>, secret: ByteString) returns (randomness: seq<ByteString>)
    requires forall i :: 0 <= i < |shares| ==> !BadIndex(shares, i) && |shares[i].data| == |secret|
    ensures Produces(secret, randomness, shares)
    ensures forall other :: Produces(secret, other, shares) ==> other == randomness
  {
    hide Eval, FittingTail;
    randomness := seq(|secret|, b requires 0 <= b < |secret| => FittingTail(shares, b, secret[b]));
    forall k | 0 <= k < |shares|
      ensures ShareAt(secret, randomness, shares[k].index) == shares[k]
    {
      forall b | 0 <= b < |secret|
        ensures Eval([secret[b]] + randomness[b], shares[k].index) == shares[k].data[b]
      {
        FittingTailFits(shares, b, secret[b]);
      }
      assert ShareAt(secret, randomness, shares[k].index).data == shares[k].data;
    }
    forall other | Produces(secret, other, shares)
      ensures other == randomness
    {
      forall b | 0 <= b < |secret|
        ensures other[b] == randomness[b]
      {
        SameColumnSameTail(secret, other, randomness, shares, b);
      }
    }
  }

  lemma SameColumnSameTail(secret: ByteString, r1: seq<ByteString>, r2: seq<ByteString>, shares: seq<Share>, b: nat)
    requires Produces(secret, r1, shares) && Produces(secret, r2, shares) && b < |secret|
    requires forall i :: 0 <= i < |shares| ==> !BadIndex(shares, i)
    ensures r1[b] == r2[b]
  {
    hide Eval;
    PrependZeroDistinct(shares);
    var xs := [0] + Indices(shares);
    var p, q := [secret[b]] + r1[b], [secret[b]] + r2[b];
    forall i | 0 <= i < |xs|
      ensures Eval(p, xs[i]) == Eval(q, xs[i])
    {
      if i == 0 {
        EvalAtZero(p);
        EvalAtZero(q);
      } else {
        var k := i - 1;
        assert xs[i] == shares[k].index;
        assert ShareAt(secret, r1, shares[k].index).data[b] == ShareAt(secret, r2, shares[k].index).data[b];
      }
    }
    AgreeingPolysEqual(p, q, xs);
    assert p[1..] == r1[b] && q[1..] == r2[b];
  }
}
