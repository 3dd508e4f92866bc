/** The Fisher-Yates shuffle the maze builder applies to its wall list.

    The source draws each swap partner with randomInt(n), which returns an
    integer in [0, n). Here the draws are an oracle handed in as a sequence:
    at step i of an array of length `len`, the shuffle consumes the next draw,
    which must lie in [0, len - i). */
module Shuffling {

  /** `draws` holds what randomInt returned at each step of an array of
      length len: the draw of step k lies in [0, len - k). */
  predicate DrawsFit(len: int, draws: seq<nat>) {
    |draws| >= len - 1
    && forall k :: 0 <= k < len - 1 ==> draws[k] < len - k
  }

  function Swap<T>(s: seq<T>, i: int, j: int): (r: seq<T>)
    requires 0 <= i < |s| && 0 <= j < |s|
    ensures |r| == |s| && r[i] == s[j] && r[j] == s[i]
    ensures forall k :: 0 <= k < |s| && k != i && k != j ==> r[k] == s[k]
  {
    s[i := s[j]][j := s[i]]
  }

  lemma SwapPermutes<T>(s: seq<T>, i: int, j: int)
    requires 0 <= i < |s| && 0 <= j < |s|
    ensures multiset(Swap(s, i, j)) == multiset(s)
  {
  }

  /** The result of running the swap loop from step i on: step k swaps
      position k with position k + draws[k], and positions before i are never
      touched again. */
  function ShuffleFrom<T>(s: seq<T>, i: nat, draws: seq<nat>): (r: seq<T>)
    requires i <= |s| && DrawsFit(|s|, draws)
    ensures |r| == |s| && forall k :: 0 <= k < i ==> r[k] == s[k]
    decreases |s| - i
  {
    if i + 1 >= |s| then s
    else ShuffleFrom(Swap(s, i, i + draws[i]), i + 1, draws)
  }

  /** The whole shuffle of s under the given draws. */
  function Shuffled<T>(s: seq<T>, draws: seq<nat>): seq<T>
    requires DrawsFit(|s|, draws)
  {
    ShuffleFrom(s, 0, draws)
  }

  /** The swap loop of the source, in place on an array. */
  method Shuffle<T>(a: array<T>, draws: seq<nat>)
    requires DrawsFit(a.Length, draws)
    modifies a
    ensures a[..] == Shuffled(old(a[..]), draws)
  {
    var i := 0;
    while i < a.Length - 1
      invariant 0 <= i <= a.Length
      invariant ShuffleFrom(a[..], i, draws) == Shuffled(old(a[..]), draws)
    {
      var randomIndex := i + draws[i];
      a[i], a[randomIndex] := a[randomIndex], a[i];
      i := i + 1;
    }
  }

  lemma {:induction false} ShuffleFromPermutes<T>(s: seq<T>, i: nat, draws: seq<nat>)
    requires i <= |s| && DrawsFit(|s|, draws)
    ensures multiset(ShuffleFrom(s, i, draws)) == multiset(s)
    decreases |s| - i
  {
    if i + 1 < |s| {
      var s' := Swap(s, i, i + draws[i]);
      calc {
        multiset(ShuffleFrom(s, i, draws));
        multiset(ShuffleFrom(s', i + 1, draws));
        { ShuffleFromPermutes(s', i + 1, draws); }
        multiset(s');
        { SwapPermutes(s, i, i + draws[i]); }
        multiset(s);
      }
    }
  }

  /** Shuffling permutes: the length and the multiset of elements are kept,
      and a sequence of length 0 or 1 comes back unchanged. */
  lemma ShufflePermutes<T>(s: seq<T>, draws: seq<nat>)
    requires DrawsFit(|s|, draws)
    ensures |Shuffled(s, draws)| == |s|
    ensures multiset(Shuffled(s, draws)) == multiset(s)
    ensures |s| <= 1 ==> Shuffled(s, draws) == s
  {
    ShuffleFromPermutes(s, 0, draws);
  }

  /** Once only the last position (or none) is left, prefix agreement and
      suffix multiset agreement make the two sequences equal. */
  lemma SettledEqual<T>(s: seq<T>, t: seq<T>, i: nat)
    requires |s| == |t| && i <= |s| && i + 1 >= |s|
    requires s[..i] == t[..i] && multiset(s[i..]) == multiset(t[i..])
    ensures s == t
  {
    if i + 1 == |s| {
      assert s[i..] == [s[i]] && t[i..] == [t[i]];
      assert s[i] in multiset(t[i..]);
      assert s == s[..i] + [s[i]] && t == t[..i] + [t[i]];
    } else {
      assert s == s[..i] && t == t[..i];
    }
  }

  lemma SwapSuffix<T>(s: seq<T>, i: nat, j: nat)
    requires i <= j < |s|
    ensures Swap(s, i, j)[i..] == Swap(s[i..], 0, j - i)
    ensures multiset(Swap(s, i, j)[i..]) == multiset(s[i..])
  {
    SwapPermutes(s[i..], 0, j - i);
  }

  /** Swapping the element t[i] into position i extends the agreeing prefix by one. */
  lemma SwapIntoPlace<T>(s: seq<T>, t: seq<T>, i: nat, j: nat)
    requires |s| == |t| && i <= j < |s|
    requires s[..i] == t[..i] && multiset(s[i..]) == multiset(t[i..]) && s[j] == t[i]
    ensures Swap(s, i, j)[..i + 1] == t[..i + 1]
    ensures multiset(Swap(s, i, j)[i + 1..]) == multiset(t[i + 1..])
  {
    var s' := Swap(s, i, j);
    assert s'[..i + 1] == t[..i + 1] by {
      assert s'[..i] == s[..i];
      assert s'[..i + 1] == s'[..i] + [s'[i]] && t[..i + 1] == t[..i] + [t[i]];
    }
    SwapSuffix(s, i, j);
    DropHead(s'[i..], t[i..]);
    assert s'[i..][1..] == s'[i + 1..] && t[i..][1..] == t[i + 1..];
  }

  /** Two sequences with the same elements and the same head have the same
      elements after it. */
  lemma DropHead<T>(u: seq<T>, v: seq<T>)
    requires |u| > 0 && |v| > 0 && u[0] == v[0] && multiset(u) == multiset(v)
    ensures multiset(u[1..]) == multiset(v[1..])
  {
    assert u == [u[0]] + u[1..] && v == [v[0]] + v[1..];
    calc {
      multiset(u[1..]);
      multiset(u) - multiset{u[0]};
      multiset(v) - multiset{v[0]};
      multiset(v[1..]);
    }
  }

  lemma {:induction false} ShuffleFromIgnoresEarlierDraws<T>(s: seq<T>, i: nat, draws: seq<nat>, k: nat, d: nat)
    requires i <= |s| && DrawsFit(|s|, draws) && k < i && k < |draws| && d < |s| - k
    ensures DrawsFit(|s|, draws[k := d])
    ensures ShuffleFrom(s, i, draws[k := d]) == ShuffleFrom(s, i, draws)
    decreases |s| - i
  {
    var draws' := draws[k := d];
    assert DrawsFit(|s|, draws');
    if i + 1 < |s| {
      var s' := Swap(s, i, i + draws[i]);
      assert draws'[i] == draws[i];
      assert ShuffleFrom(s, i, draws') == ShuffleFrom(s', i + 1, draws');
      assert ShuffleFrom(s, i, draws) == ShuffleFrom(s', i + 1, draws);
      ShuffleFromIgnoresEarlierDraws(s', i + 1, draws, k, d);
    }
  }

  lemma PickSource<T>(s: seq<T>, t: seq<T>, i: nat) returns (k: nat)
    requires |s| == |t| && i < |s| && multiset(s[i..]) == multiset(t[i..])
    ensures k < |s| - i && s[i + k] == t[i]
  {
    assert t[i..][0] == t[i];
    assert t[i] in multiset(t[i..]);
    k :| 0 <= k < |s| - i && s[i..][k] == t[i];
  }

  /** A first step swapping i with i + k, followed by draws that finish the job. */
  lemma ExtendDraws<T>(s: seq<T>, t: seq<T>, i: nat, k: nat, rest: seq<nat>)
    requires i + 1 < |s| && k < |s| - i && DrawsFit(|s|, rest)
    requires ShuffleFrom(Swap(s, i, i + k), i + 1, rest) == t
    ensures DrawsFit(|s|, rest[i := k]) && ShuffleFrom(s, i, rest[i := k]) == t
  {
    var s' := Swap(s, i, i + k);
    ShuffleFromIgnoresEarlierDraws(s', i + 1, rest, i, k);
    var draws := rest[i := k];
    assert draws[i] == k;
    assert ShuffleFrom(s, i, draws) == ShuffleFrom(s', i + 1, draws);
  }

  lemma {:induction false} ReachableFrom<T>(s: seq<T>, t: seq<T>, i: nat)
    requires |s| == |t| && i <= |s|
    requires s[..i] == t[..i] && multiset(s[i..]) == multiset(t[i..])
    ensures exists draws :: DrawsFit(|s|, draws) && ShuffleFrom(s, i, draws) == t
    decreases |s| - i
  {
    if i + 1 >= |s| {
      SettledEqual(s, t, i);
      var zeros := seq(|s|, k => 0);
      assert DrawsFit(|s|, zeros) && ShuffleFrom(s, i, zeros) == t;
    } else {
      var k := PickSource(s, t, i);
      SwapIntoPlace(s, t, i, i + k);
      ReachableFrom(Swap(s, i, i + k), t, i + 1);
      var rest :| DrawsFit(|s|, rest) && ShuffleFrom(Swap(s, i, i + k), i + 1, rest) == t;
      ExtendDraws(s, t, i, k, rest);
    }
  }

  /** Every rearrangement of s is produced by some sequence of fitting draws:
      no permutation is out of the shuffle's reach. */
  lemma EveryPermutationReachable<T>(s: seq<T>, t: seq<T>)
    requires multiset(s) == multiset(t)
    ensures exists draws :: DrawsFit(|s|, draws) && Shuffled(s, draws) == t
  {
    assert |s| == |multiset(s)| == |multiset(t)| == |t|;
    assert s[0..] == s && t[0..] == t;
    ReachableFrom(s, t, 0);
  }
}
