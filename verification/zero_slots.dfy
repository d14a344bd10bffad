/** The zero-slot removal shared by polyfill, compact and k-ring: after an
    H3 routine fills a zeroed buffer, every non-zero index moves to the
    front in its original order and the rest of the buffer becomes 0, so
    that the first `max_calls` slots are the rows to emit. */
module ZeroSlots {
  import opened Types

  /** The non-zero entries of `s`, in their order in `s`. */
  function NonZero(s: seq<H3Index>): (r: seq<H3Index>)
    ensures |r| <= |s|
    ensures forall k :: 0 <= k < |r| ==> r[k] != 0
  {
    if |s| == 0 then []
    else NonZero(s[..|s| - 1]) + (if s[|s| - 1] != 0 then [s[|s| - 1]] else [])
  }

  function Zeros(n: nat): (r: seq<H3Index>)
    ensures |r| == n
  {
    if n == 0 then [] else Zeros(n - 1) + [0]
  }

  lemma {:induction false} ZerosAreZero(n: nat)
    ensures forall k :: 0 <= k < n ==> Zeros(n)[k] == 0
  {
    if n > 0 {
      ZerosAreZero(n - 1);
      assert Zeros(n) == Zeros(n - 1) + [0];
    }
  }

  /** The buffer after the zero-slot loop. */
  function Packed(s: seq<H3Index>): seq<H3Index> {
    NonZero(s) + Zeros(|s| - |NonZero(s)|)
  }

  /** A zeroed buffer of `n` slots after a foreign routine has written
      `written` into it: the routine writes only inside the buffer, and the
      slots it does not reach keep the 0 that `palloc0` put there. */
  function Buffer(n: nat, written: seq<H3Index>): (b: seq<H3Index>)
    ensures |b| == n
    ensures forall k :: 0 <= k < n && k < |written| ==> b[k] == written[k]
    ensures forall k :: |written| <= k < n ==> b[k] == 0
  {
    seq(n, k requires 0 <= k < n => if k < |written| then written[k] else 0)
  }

  /** The loop of src/region.c:157-168 (and its copies in compact.c and
      neighbor.c), in place on the buffer. An entry moves only when a hole
      lies before it (`i > max_calls`); its old slot is zeroed. */
  method FillHoles(hexagons: array<H3Index>) returns (maxCalls: nat)
    modifies hexagons
    ensures maxCalls == |NonZero(old(hexagons[..]))|
    ensures hexagons[..] == Packed(old(hexagons[..]))
  {
    ghost var input := hexagons[..];
    maxCalls := 0;
    var i := 0;
    while i < hexagons.Length
      invariant 0 <= maxCalls <= i <= hexagons.Length
      invariant LoopState(hexagons[..], input, maxCalls, i)
    {
      ghost var before := hexagons[..];
      if hexagons[i] != 0 {
        if i > maxCalls {
          hexagons[maxCalls] := hexagons[i];
          hexagons[i] := 0;
        }
        maxCalls := maxCalls + 1;
      }
      LoopStep(before, hexagons[..], input, maxCalls, i);
      i := i + 1;
    }
    assert input[..i] == input;
    PackedFromParts(hexagons[..], input, maxCalls);
  }

  /** The invariant of the zero-slot loop after `i` slots: the first
      `max_calls` slots hold the survivors among the first `i` inputs, the
      slots from `max_calls` to `i` are 0, and the rest is untouched. */
  ghost predicate LoopState(cur: seq<H3Index>, input: seq<H3Index>, m: nat, i: nat) {
    && |cur| == |input| && m <= i <= |input|
    && cur[..m] == NonZero(input[..i])
    && (forall k :: m <= k < i ==> cur[k] == 0)
    && (forall k :: i <= k < |cur| ==> cur[k] == input[k])
  }

  /** One iteration of the loop keeps the invariant. `m'` is `max_calls`
      after the iteration. */
  lemma LoopStep(before: seq<H3Index>, after: seq<H3Index>, input: seq<H3Index>, m': nat, i: nat)
    requires i < |input| == |before|
    requires before[i] != 0 ==> m' >= 1 && LoopState(before, input, m' - 1, i)
    requires before[i] != 0 && i > m' - 1 ==> after == before[m' - 1 := before[i]][i := 0]
    requires before[i] != 0 && i <= m' - 1 ==> after == before
    requires before[i] == 0 ==> LoopState(before, input, m', i) && after == before
    ensures LoopState(after, input, m', i + 1)
  {
    assert input[..i + 1] == input[..i] + [input[i]];
    NonZeroSnoc(input[..i], input[i]);
    if before[i] != 0 {
      assert after[..m' - 1] == before[..m' - 1];
      assert after[..m'] == after[..m' - 1] + [input[i]];
    }
  }

  /** A buffer whose prefix is the survivors and whose rest is zero is the
      packed buffer. */
  lemma PackedFromParts(t: seq<H3Index>, s: seq<H3Index>, m: nat)
    requires |t| == |s| && m <= |t|
    requires t[..m] == NonZero(s)
    requires forall k :: m <= k < |t| ==> t[k] == 0
    ensures t == Packed(s)
  {
    ZerosAreZero(|s| - m);
    assert t == t[..m] + t[m..];
  }

  // ---------------------------------------------------------------------
  // What the packed buffer means
  // ---------------------------------------------------------------------

  /** Filtering distributes over concatenation: the relative order of the
      survivors is the order of the input. */
  lemma {:induction false} NonZeroAppend(a: seq<H3Index>, b: seq<H3Index>)
    ensures NonZero(a + b) == NonZero(a) + NonZero(b)
    decreases |b|
  {
    if |b| == 0 {
      assert a + b == a;
    } else {
      var b' := b[..|b| - 1];
      assert (a + b)[..|a + b| - 1] == a + b';
      NonZeroAppend(a, b');
    }
  }

  /** A buffer without zero slots is left as it is. */
  lemma {:induction false} NonZeroOfFull(s: seq<H3Index>)
    requires forall k :: 0 <= k < |s| ==> s[k] != 0
    ensures NonZero(s) == s
  {
    if |s| > 0 {
      NonZeroOfFull(s[..|s| - 1]);
    }
  }

  /** Filtering one more slot. */
  lemma NonZeroSnoc(init: seq<H3Index>, x: H3Index)
    ensures NonZero(init + [x]) == NonZero(init) + (if x != 0 then [x] else [])
  {
    assert (init + [x])[..|init|] == init;
  }

  /** The survivors together with the zeros refilled behind them are the
      input's entries with their multiplicities. */
  ghost predicate Conserves(s: seq<H3Index>) {
    multiset(NonZero(s)) + multiset(Zeros(|s| - |NonZero(s)|)) == multiset(s)
  }

  /** The loop loses, duplicates and invents nothing. */
  lemma {:induction false} NonZeroMultiset(s: seq<H3Index>)
    ensures Conserves(s)
  {
    if |s| == 0 {
      assert Zeros(0) == [];
    } else {
      var init, x := s[..|s| - 1], s[|s| - 1];
      assert s == init + [x];
      NonZeroMultiset(init);
      MultisetStep(init, x);
    }
  }

  lemma MultisetStep(init: seq<H3Index>, x: H3Index)
    requires Conserves(init)
    ensures Conserves(init + [x])
  {
    NonZeroSnoc(init, x);
    var n := NonZero(init);
    var m := |init| - |n|;
    assert multiset(init + [x]) == multiset(init) + multiset{x};
    if x == 0 {
      assert |init + [x]| - |NonZero(init + [x])| == m + 1;
      assert Zeros(m + 1) == Zeros(m) + [0];
      assert multiset(Zeros(m + 1)) == multiset(Zeros(m)) + multiset{x};
    } else {
      assert NonZero(init + [x]) == n + [x];
      assert |init + [x]| - |NonZero(init + [x])| == m;
      assert multiset(n + [x]) == multiset(n) + multiset{x};
    }
  }

  /** `max_calls` counts the non-zero slots, which never exceed the buffer;
      the prefix holds them in order, every later slot is 0, and the packed
      buffer is a permutation of the input. */
  lemma PackedLayout(s: seq<H3Index>)
    ensures |Packed(s)| == |s|
    ensures |NonZero(s)| == |s| - multiset(s)[0]
    ensures Packed(s)[..|NonZero(s)|] == NonZero(s)
    ensures forall k :: |NonZero(s)| <= k < |s| ==> Packed(s)[k] == 0
    ensures multiset(Packed(s)) == multiset(s)
  {
    PackedShape(s);
    PackedPermutation(s);
    SurvivorCount(s);
  }

  lemma PackedShape(s: seq<H3Index>)
    ensures |Packed(s)| == |s|
    ensures Packed(s)[..|NonZero(s)|] == NonZero(s)
    ensures forall k :: |NonZero(s)| <= k < |s| ==> Packed(s)[k] == 0
  {
    var n := NonZero(s);
    var z := Zeros(|s| - |n|);
    ZerosAreZero(|z|);
    assert (n + z)[..|n|] == n;
  }

  lemma PackedPermutation(s: seq<H3Index>)
    ensures multiset(Packed(s)) == multiset(s)
  {
    var n := NonZero(s);
    var z := Zeros(|s| - |n|);
    assert multiset(n + z) == multiset(n) + multiset(z);
    NonZeroMultiset(s);
  }

  lemma {:induction false} SurvivorCount(s: seq<H3Index>)
    ensures |NonZero(s)| == |s| - multiset(s)[0]
  {
    if |s| > 0 {
      var init, x := s[..|s| - 1], s[|s| - 1];
      SurvivorCount(init);
      assert s == init + [x];
      assert multiset(s) == multiset(init) + multiset{x};
    }
  }

  /** Packing an already packed buffer changes nothing, so running the
      loop a second time would be harmless. */
  lemma PackedIdempotent(s: seq<H3Index>)
    ensures Packed(Packed(s)) == Packed(s)
  {
    var z := Zeros(|s| - |NonZero(s)|);
    NonZeroAppend(NonZero(s), z);
    NonZeroOfFull(NonZero(s));
    NonZeroOfZeros(|z|);
    assert NonZero(Packed(s)) == NonZero(s);
  }

  lemma {:induction false} NonZeroOfZeros(n: nat)
    ensures NonZero(Zeros(n)) == []
  {
    if n > 0 {
      assert Zeros(n)[..n - 1] == Zeros(n - 1);
      NonZeroOfZeros(n - 1);
    }
  }

  /** No row survives exactly when every slot is 0. */
  lemma {:induction false} NoSurvivors(s: seq<H3Index>)
    ensures NonZero(s) == [] <==> forall k :: 0 <= k < |s| ==> s[k] == 0
  {
    if |s| > 0 {
      NoSurvivors(s[..|s| - 1]);
      if NonZero(s) == [] {
        forall k | 0 <= k < |s| ensures s[k] == 0 {
          if k < |s| - 1 {
            assert s[k] == s[..|s| - 1][k];
          }
        }
      }
    }
  }

  /** How many of the written values land in a buffer of `n` slots. */
  function Reach(n: nat, written: seq<H3Index>): (m: nat)
    ensures m <= n && m <= |written|
    ensures m == n || m == |written|
  {
    if n <= |written| then n else |written|
  }

  /** The survivors of a buffer the routine wrote into are the non-zero
      values it wrote within the buffer, in the order it wrote them; what it
      did not reach adds nothing. */
  lemma BufferSurvivors(n: nat, written: seq<H3Index>)
    ensures NonZero(Buffer(n, written)) == NonZero(written[..Reach(n, written)])
  {
    var m := Reach(n, written);
    var p, z := written[..m], Zeros(n - m);
    BufferSplit(n, written, m);
    NonZeroAppend(p, z);
    NonZeroOfZeros(n - m);
    assert NonZero(p) + [] == NonZero(p);
  }

  /** The buffer is the written prefix followed by zeros. */
  lemma BufferSplit(n: nat, written: seq<H3Index>, m: nat)
    requires m == Reach(n, written)
    ensures Buffer(n, written) == written[..m] + Zeros(n - m)
  {
    var b := Buffer(n, written);
    var c := written[..m] + Zeros(n - m);
    ZerosAreZero(n - m);
    forall k | 0 <= k < n ensures b[k] == c[k] {
      if k < m {
        assert c[k] == written[k];
      } else {
        assert c[k] == Zeros(n - m)[k - m];
      }
    }
  }
}
