/** The Internet checksum and its update when the identification of a packet is changed. */
module InternetChecksum {

  import opened Bytes

  const BUFFER_SIZE := 2000

  function Word(hi: byte, lo: byte): word { hi as int * 0x100 + lo as int }

  /** Addition with end-around carry. */
  function Add(a: word, b: word): (r: word)
  {
    if a + b >= 0x1_0000 then a + b - 0xFFFF else a + b
  }

  /** The sum of the words of `s`; an odd byte at the end is the high byte of a word. */
  function WordSum(s: seq<byte>): nat {
    if |s| == 0 then 0 else if |s| == 1 then Word(s[0], 0) else Word(s[0], s[1]) + WordSum(s[2..])
  }

  /** The word that end-around carries make of a sum: zero for zero only. */
  function Folded(total: nat): (r: word) { if total == 0 then 0 else 1 + (total - 1) % 0xFFFF }

  predicate Passes(total: nat) { total % 0xFFFF == 0 }

  lemma FoldedPasses(total: nat)
    ensures Passes(total) <==> Folded(total) == 0 || Folded(total) == 0xFFFF
  {
  }

  lemma AddFolds(total: nat, w: word)
    ensures Add(Folded(total), w) == Folded(total + w)
  {
    if total == 0 {
      assert w > 0 ==> Folded(w) == w;
    } else {
      var q, r := (total - 1) / 0xFFFF, (total - 1) % 0xFFFF;
      assert total - 1 == q * 0xFFFF + r;
      assert total + w - 1 == q * 0xFFFF + (r + w);
      if r + w >= 0xFFFF {
        assert r + w == 0xFFFF ==> (total + w - 1) % 0xFFFF == 0;
      }
    }
  }

  /** The words of a text that is cut at an even position. */
  lemma {:induction false} SumTogether(a: seq<byte>, b: seq<byte>)
    requires |a| % 2 == 0
    ensures WordSum(a + b) == WordSum(a) + WordSum(b)
    decreases |a|
  {
    if a == [] {
      assert a + b == b;
    } else {
      assert (a + b)[2..] == a[2..] + b;
      SumTogether(a[2..], b);
    }
  }

  /** Bytes count by their places: those at even ones are high bytes. */
  lemma {:induction false} ByteCounts(s: seq<byte>, b: byte)
    ensures WordSum([]) == 0
    ensures WordSum(s + [b]) == WordSum(s) + (if |s| % 2 == 0 then b as int * 0x100 else b as int)
    decreases |s|
  {
    if |s| >= 2 {
      ByteCounts(s[2..], b);
      assert (s + [b])[2..] == s[2..] + [b];
    } else if |s| == 1 {
      assert (s + [b])[2..] == [];
    }
  }

  lemma FourWords(a: byte, b: byte, c: byte, d: byte, e: byte, f: byte, g: byte, h: byte)
    ensures WordSum([a, b, c, d, e, f, g, h]) == Word(a, b) + Word(c, d) + Word(e, f) + Word(g, h)
  {
    assert [a, b, c, d, e, f, g, h][2..] == [c, d, e, f, g, h];
    assert [c, d, e, f, g, h][2..] == [e, f, g, h];
    assert [e, f, g, h][2..] == [g, h] && [g, h][2..] == [];
    assert WordSum([g, h]) == Word(g, h);
    assert WordSum([e, f, g, h]) == Word(e, f) + Word(g, h);
  }

  lemma NextWord(s: seq<byte>, p: nat)
    requires p % 2 == 0 && p < |s|
    ensures p + 1 < |s| ==> WordSum(s[..p + 2]) == WordSum(s[..p]) + Word(s[p], s[p + 1])
    ensures p + 1 == |s| ==> WordSum(s) == WordSum(s[..p]) + Word(s[p], 0)
  {
    if p + 1 < |s| {
      assert s[..p + 2] == s[..p] + [s[p], s[p + 1]];
      SumTogether(s[..p], [s[p], s[p + 1]]);
      assert [s[p], s[p + 1]][2..] == [];
    } else {
      assert s == s[..p] + [s[p]];
      SumTogether(s[..p], [s[p]]);
    }
  }

  /** Sums up words with end-around carries, from what the sum `total` makes on. */
  method Ip4Sum(start: word, s: seq<byte>, ghost total: nat) returns (sum: word)
    requires |s| < 0x1_0000 && start == Folded(total)
    ensures sum == Folded(total + WordSum(s))
  {
    hide Folded, WordSum, Word, Add;
    sum := start;
    var p: nat := 0;
    NoWords(s);
    while p + 1 < |s|
      invariant p <= |s| && p % 2 == 0 && sum == Folded(total + WordSum(s[..p]))
    {
      NextWord(s, p);
      AddFolds(total + WordSum(s[..p]), Word(s[p], s[p + 1]));
      sum := EndAround(sum, Word(s[p], s[p + 1]));
      p := p + 2;
    }
    if p < |s| {
      NextWord(s, p);
      AddFolds(total + WordSum(s[..p]), Word(s[p], 0));
      sum := EndAround(sum, Word(s[p], 0));
    } else {
      assert s[..p] == s;
    }
  }

  lemma NoWords(s: seq<byte>)
    ensures WordSum(s[..0]) == 0
  {
  }

  /** The addition as it is done in 16 bits. */
  method EndAround(a: word, b: word) returns (r: word)
    ensures r == Add(a, b)
  {
    r := (a + b) % 0x1_0000;
    if r < b {
      r := (r + 1) % 0x1_0000;
    }
  }

  // ----- Byte order

  function Swap(w: word): word { w % 0x100 * 0x100 + w / 0x100 }

  lemma FoldedOnce(x: nat)
    requires x > 0
    ensures Folded(x + 0xFFFF) == Folded(x)
  {
  }

  lemma {:induction false} FoldedAgain(x: nat, k: nat)
    requires x > 0
    ensures Folded(x + 0xFFFF * k) == Folded(x)
  {
    hide Folded;
    if k > 0 {
      FoldedAgain(x, k - 1);
      FoldedOnce(x + 0xFFFF * (k - 1));
    }
  }

  lemma SwapFolds(w: word)
    ensures Swap(w) == Folded(0x100 * w)
  {
    var h, l := w / 0x100, w % 0x100;
    assert w == h * 0x100 + l;
    if w > 0 {
      assert 0x100 * w == Swap(w) + 0xFFFF * h;
      FoldedAgain(Swap(w), h);
    }
  }

  /** Sums with end-around carry do not depend on the order of the bytes. */
  lemma SwapAdds(a: word, b: word)
    ensures Add(Swap(a), Swap(b)) == Swap(Add(a, b))
  {
    hide Swap, Folded;
    SwapFolds(a);
    SwapFolds(b);
    SwapFolds(Add(a, b));
    AddFolds(0x100 * a, Swap(b));
    SwapTimes(b);
    if a + b > 0 {
      var h := b / 0x100;
      assert 0x100 * a + 0x100 * b == 0x100 * a + Swap(b) + 0xFFFF * h;
      if 0x100 * a + Swap(b) > 0 {
        FoldedAgain(0x100 * a + Swap(b), h);
      }
      FoldedAgain(0x100 * Add(a, b), if a + b >= 0x1_0000 then 0x100 else 0);
    }
  }

  lemma SwapTimes(b: word)
    ensures 0x100 * b == Swap(b) + 0xFFFF * (b / 0x100) && (b > 0 ==> Swap(b) > 0)
  {
    assert b == b / 0x100 * 0x100 + b % 0x100;
  }
}
