/** The internet checksum: a 32-bit sum of 16-bit words, folded and complemented. The reference is the one's-complement
    sum of section 1 of RFC 1071. */
module Checksums {
  import opened Bits

  type Byte = x: nat | x < 256

  const U16_LIMIT: nat := 0x1_0000
  const U32_LIMIT: nat := 0x1_0000_0000

  /** The longest payload that the 32-bit sum is sure to hold. */
  const SAFE_LENGTH: nat := 131074

  // Words and sums

  function WordAt(p: seq<Byte>, i: nat): (r: nat)
    requires 2 * i + 1 < |p|
    ensures r < U16_LIMIT
  {
    (p[2 * i] as nat) * 256 + p[2 * i + 1]
  }

  function Words(p: seq<Byte>): (r: seq<nat>)
    ensures |r| == |p| / 2 && forall i :: 0 <= i < |r| ==> r[i] < U16_LIMIT
  {
    seq(|p| / 2, i requires 0 <= i < |p| / 2 => WordAt(p, i))
  }

  function Sum(ws: seq<nat>): nat {
    if ws == [] then 0 else Sum(ws[..|ws| - 1]) + ws[|ws| - 1]
  }

  /** The sum before folding. The last byte of an odd payload is added as a low byte. */
  function RawSum(p: seq<Byte>): nat {
    Sum(Words(p)) + if |p| % 2 == 1 then p[|p| - 1] as nat else 0
  }

  /** What each further word or odd byte counts for. */
  lemma RawSumNext(p: seq<Byte>, x: Byte, y: Byte)
    requires |p| % 2 == 0
    ensures RawSum([]) == 0 && RawSum(p + [x]) == RawSum(p) + x && RawSum(p + [x, y]) == RawSum(p) + 256 * x + y
  {
    assert Words(p + [x]) == Words(p);
    assert Words(p + [x, y])[..|p| / 2] == Words(p);
  }

  /** One's-complement addition: the carry comes back in at the bottom. */
  function AddOnes(a: nat, b: nat): (r: nat)
    requires a < U16_LIMIT && b < U16_LIMIT
    ensures r < U16_LIMIT
  {
    if a + b < U16_LIMIT then a + b else a + b - U16_LIMIT + 1
  }

  function OnesSum(ws: seq<nat>): (r: nat)
    requires forall i :: 0 <= i < |ws| ==> ws[i] < U16_LIMIT
    ensures r < U16_LIMIT
  {
    if ws == [] then 0 else AddOnes(OnesSum(ws[..|ws| - 1]), ws[|ws| - 1])
  }

  /** `r` stands for `n` in one's complement: 0 only for 0, and else the remainder from 1 to 0xffff. */
  predicate Stands(n: nat, r: nat) {
    && r < U16_LIMIT && (r == 0 <==> n == 0)
    && r <= n && (n - r) % (U16_LIMIT - 1) == 0
  }

  lemma StandsUnique(n: nat, r: nat, r': nat)
    requires Stands(n, r) && Stands(n, r')
    ensures r == r'
  {
    var i, j := (n - r) / (U16_LIMIT - 1), (n - r') / (U16_LIMIT - 1);
    assert n == (U16_LIMIT - 1) * i + r == (U16_LIMIT - 1) * j + r';
  }

  lemma StandsFold(n: nat, m: nat, r: nat)
    requires n >= U16_LIMIT && m == n % U16_LIMIT + n / U16_LIMIT && Stands(m, r)
    ensures Stands(n, r) && 0 < m < n
  {
    var q, i := n / U16_LIMIT, (m - r) / (U16_LIMIT - 1);
    assert n - r == (U16_LIMIT - 1) * (q + i);
    ModUnique(n - r, U16_LIMIT - 1, q + i, 0);
  }

  lemma StandsAdd(n: nat, r: nat, w: nat)
    requires Stands(n, r) && w < U16_LIMIT
    ensures Stands(n + w, AddOnes(r, w))
  {
    var i := (n - r) / (U16_LIMIT - 1);
    if r + w >= U16_LIMIT {
      ModUnique(n + w - AddOnes(r, w), U16_LIMIT - 1, i + 1, 0);
    }
  }

  /** The one's-complement sum stands for the plain sum. */
  lemma {:induction false} OnesSumStands(ws: seq<nat>)
    requires forall i :: 0 <= i < |ws| ==> ws[i] < U16_LIMIT
    ensures Stands(Sum(ws), OnesSum(ws))
  {
    if ws != [] {
      OnesSumStands(ws[..|ws| - 1]);
      StandsAdd(Sum(ws[..|ws| - 1]), OnesSum(ws[..|ws| - 1]), ws[|ws| - 1]);
    }
  }

  // The code

  /** `ok` fails where the 32-bit sum overflows. */
  method Checksum(payload: seq<Byte>) returns (ok: bool, r: nat)
    ensures ok <==> RawSum(payload) < U32_LIMIT
    ensures ok ==> r < U16_LIMIT && Stands(RawSum(payload), U16_LIMIT - 1 - r)
  {
    var sum: nat := 0;
    ghost var ws := Words(payload);
    for i := 0 to |payload| / 2
      invariant sum == Sum(ws[..i]) && sum < U32_LIMIT
    {
      SumPrefix(ws, i);
      WordOr(payload[2 * i], payload[2 * i + 1]);
      sum := sum + Or(payload[2 * i + 1], (payload[2 * i] as nat) * 256);
      if sum >= U32_LIMIT {
        SumAtLeast(ws, i + 1);
        return false, 0;
      }
    }
    assert ws[..|payload| / 2] == ws;
    if |payload| % 2 != 0 {
      sum := sum + payload[|payload| - 1];
      if sum >= U32_LIMIT {
        return false, 0;
      }
    }
    sum := Fold(sum);
    Pow2Of16();
    return true, Not(16, sum);
  }

  /** Adds the high half to the low half until nothing is left above. */
  method Fold(total: nat) returns (sum: nat)
    ensures Stands(total, sum)
  {
    sum := total;
    while sum / U16_LIMIT != 0
      invariant forall x :: Stands(sum, x) ==> Stands(total, x)
      decreases sum
    {
      LowHalf(sum);
      ghost var before := sum;
      sum := And(sum, 0xffff) + sum / U16_LIMIT;
      forall x: nat | Stands(sum, x)
        ensures Stands(total, x)
      {
        StandsFold(before, sum, x);
      }
      FoldFalls(before);
    }
    assert Stands(sum, sum) by { ModUnique(0, U16_LIMIT - 1, 0, 0); }
  }

  lemma Pow2Of16()
    ensures Pow2(16) == U16_LIMIT
  {
    assert Pow2(8) == 256;
    assert Pow2(12) == 16 * Pow2(8);
    assert Pow2(16) == 16 * Pow2(12);
  }

  lemma WordOr(hi: Byte, lo: Byte)
    ensures Or(lo, (hi as nat) * 256) == (hi as nat) * 256 + lo
  {
    assert Pow2(8) == 256;
    OrDisjoint(lo, hi, 8);
  }

  lemma LowHalf(n: nat)
    ensures And(n, 0xffff) == n % U16_LIMIT
  {
    Pow2Of16();
    AndLow(n, 16);
  }

  lemma FoldFalls(n: nat)
    requires n >= U16_LIMIT
    ensures n % U16_LIMIT + n / U16_LIMIT < n
  {
  }

  lemma SumPrefix(ws: seq<nat>, i: nat)
    requires i < |ws|
    ensures Sum(ws[..i + 1]) == Sum(ws[..i]) + ws[i]
  {
    assert ws[..i + 1][..i] == ws[..i];
  }

  lemma {:induction false} SumAtLeast(ws: seq<nat>, i: nat)
    requires i <= |ws|
    ensures Sum(ws[..i]) <= Sum(ws)
    decreases |ws|
  {
    if i < |ws| {
      assert ws[..|ws| - 1][..i] == ws[..i];
      SumAtLeast(ws[..|ws| - 1], i);
    } else {
      assert ws[..i] == ws;
    }
  }

  // How long a payload may be

  lemma {:induction false} SumBound(ws: seq<nat>)
    requires forall i :: 0 <= i < |ws| ==> ws[i] < U16_LIMIT
    ensures Sum(ws) <= (U16_LIMIT - 1) * |ws|
    ensures (forall i :: 0 <= i < |ws| ==> ws[i] == U16_LIMIT - 1) ==> Sum(ws) == (U16_LIMIT - 1) * |ws|
  {
    if ws != [] { SumBound(ws[..|ws| - 1]); }
  }

  lemma ShortFits(p: seq<Byte>)
    requires |p| <= SAFE_LENGTH
    ensures RawSum(p) < U32_LIMIT
  {
    SumBound(Words(p));
  }

  lemma LongOverflows(n: nat)
    requires n > SAFE_LENGTH
    ensures RawSum(seq(n, _ => 255 as Byte)) >= U32_LIMIT
  {
    var p := seq(n, _ => 255 as Byte);
    assert forall i :: 0 <= i < |Words(p)| ==> Words(p)[i] == U16_LIMIT - 1;
    SumBound(Words(p));
  }

  /** Exactly the lengths up to `SAFE_LENGTH` are safe whatever the payload holds. */
  lemma SafeIff(n: nat)
    ensures (forall p: seq<Byte> :: |p| == n ==> RawSum(p) < U32_LIMIT) <==> n <= SAFE_LENGTH
  {
    if n <= SAFE_LENGTH {
      forall p: seq<Byte> | |p| == n
        ensures RawSum(p) < U32_LIMIT
      {
        ShortFits(p);
      }
    } else {
      LongOverflows(n);
      assert |seq(n, _ => 255 as Byte)| == n;
    }
  }

  // The reference

  /** On even lengths the folded sum is the one's-complement sum. */
  lemma MatchesOnesSum(p: seq<Byte>, x: nat)
    requires |p| % 2 == 0 && Stands(RawSum(p), x)
    ensures x == OnesSum(Words(p))
  {
    OnesSumStands(Words(p));
    StandsUnique(RawSum(p), x, OnesSum(Words(p)));
  }

  // The order of the words does not matter

  lemma {:induction false} SumInsert(a: seq<nat>, w: nat, b: seq<nat>)
    ensures Sum(a + [w] + b) == Sum(a + b) + w
    decreases |b|
  {
    var all, less := a + [w] + b, a + b;
    if b == [] {
      assert all[..|all| - 1] == a && less == a;
    } else {
      var b' := b[..|b| - 1];
      assert all[..|all| - 1] == a + [w] + b' && less[..|less| - 1] == a + b';
      SumInsert(a, w, b');
    }
  }

  lemma {:induction false} SumUnordered(ws: seq<nat>, vs: seq<nat>)
    requires multiset(ws) == multiset(vs)
    ensures Sum(ws) == Sum(vs)
  {
    if ws == [] {
      assert vs == [] by { assert |multiset(vs)| == 0; }
    } else {
      var n := |ws| - 1;
      TakeOut(ws, n);
      assert ws[n] in multiset(vs);
      var i: nat :| i < |vs| && vs[i] == ws[n];
      TakeOut(vs, i);
      assert ws[..n] + ws[n + 1..] == ws[..n];
      SumUnordered(ws[..n], vs[..i] + vs[i + 1..]);
    }
  }

  lemma TakeOut(ws: seq<nat>, i: nat)
    requires i < |ws|
    ensures var less := ws[..i] + ws[i + 1..];
      multiset(less) == multiset(ws) - multiset{ws[i]} && Sum(ws) == Sum(less) + ws[i]
  {
    assert ws == ws[..i] + [ws[i]] + ws[i + 1..];
    SumInsert(ws[..i], ws[i], ws[i + 1..]);
  }

  lemma OrderFree(p: seq<Byte>, q: seq<Byte>, x: nat, y: nat)
    requires multiset(Words(p)) == multiset(Words(q)) && |p| % 2 == |q| % 2
    requires |p| % 2 == 1 ==> p[|p| - 1] == q[|q| - 1]
    requires Stands(RawSum(p), x) && Stands(RawSum(q), y)
    ensures x == y
  {
    SumUnordered(Words(p), Words(q));
    StandsUnique(RawSum(p), x, y);
  }

  // Storing the checksum

  /** `p` with a word stored in network order. */
  function Store(p: seq<Byte>, at: nat, w: nat): (r: seq<Byte>)
    requires at + 1 < |p| && w < U16_LIMIT
    ensures |r| == |p|
  {
    p[at := w / 256][at + 1 := w % 256]
  }

  lemma StoreAdds(p: seq<Byte>, at: nat, w: nat)
    requires at % 2 == 0 && at + 1 < |p| && p[at] == 0 && p[at + 1] == 0 && w < U16_LIMIT
    ensures RawSum(Store(p, at, w)) == RawSum(p) + w
  {
    var k := at / 2;
    WordsStored(p, k, w);
    SumChange(Words(p), k, w);
  }

  lemma WordsStored(p: seq<Byte>, k: nat, w: nat)
    requires 2 * k + 1 < |p| && w < U16_LIMIT
    ensures Words(Store(p, 2 * k, w)) == Words(p)[k := w]
    ensures |p| % 2 == 1 ==> Store(p, 2 * k, w)[|p| - 1] == p[|p| - 1]
  {
    var q := Store(p, 2 * k, w);
    forall i | 0 <= i < |p| / 2
      ensures WordAt(q, i) == if i == k then w else WordAt(p, i)
    {
      assert i != k ==> q[2 * i] == p[2 * i] && q[2 * i + 1] == p[2 * i + 1];
    }
  }

  lemma SumChange(ws: seq<nat>, k: nat, w: nat)
    requires k < |ws| && ws[k] == 0
    ensures Sum(ws[k := w]) == Sum(ws) + w
  {
    var a, b := ws[..k], ws[k + 1..];
    assert ws == a + [0] + b && ws[k := w] == a + [w] + b;
    SumInsert(a, 0, b);
    SumInsert(a, w, b);
  }

  /** A word stored in the zeroed field makes the checksum of the whole zero exactly if it is the checksum modulo
      0xffff and the whole is not all zero. */
  lemma VerifiesIff(p: seq<Byte>, at: nat, w: nat, c: nat)
    requires at % 2 == 0 && at + 1 < |p| && p[at] == 0 && p[at + 1] == 0 && w < U16_LIMIT && c < U16_LIMIT
    requires Stands(RawSum(p), U16_LIMIT - 1 - c)
    ensures Stands(RawSum(Store(p, at, w)), U16_LIMIT - 1) <==>
      RawSum(p) + w > 0 && w % (U16_LIMIT - 1) == c % (U16_LIMIT - 1)
  {
    StoreAdds(p, at, w);
    FillUp(RawSum(p), w, c);
  }

  lemma FillUp(n: nat, w: nat, c: nat)
    requires w < U16_LIMIT && c < U16_LIMIT && Stands(n, U16_LIMIT - 1 - c)
    ensures Stands(n + w, U16_LIMIT - 1) <==> n + w > 0 && w % (U16_LIMIT - 1) == c % (U16_LIMIT - 1)
  {
    var m := U16_LIMIT - 1;
    var i := (n - (m - c)) / m;
    assert n == m * i + m - c;
    assert n + w - m == m * i + (w - c);
    if w % m == c % m {
      assert w - c == 0 || w - c == m || w - c == -m;
    }
    if n + w > 0 && w % m == c % m {
      assert (n + w - m) % m == 0;
      assert n + w >= m;
    }
  }

  /** Storing the checksum makes the checksum of the whole zero. */
  lemma StoreVerifies(p: seq<Byte>, at: nat, c: nat)
    requires at % 2 == 0 && at + 1 < |p| && p[at] == 0 && p[at + 1] == 0 && c < U16_LIMIT
    requires Stands(RawSum(p), U16_LIMIT - 1 - c)
    ensures Stands(RawSum(Store(p, at, c)), U16_LIMIT - 1)
  {
    VerifiesIff(p, at, c, c);
  }

  // Byte order

  function SwapWord(w: nat): (r: nat)
    requires w < U16_LIMIT
    ensures r < U16_LIMIT
  {
    w % 256 * 256 + w / 256
  }

  function SwapWords(ws: seq<nat>): (r: seq<nat>)
    requires forall i :: 0 <= i < |ws| ==> ws[i] < U16_LIMIT
    ensures |r| == |ws| && forall i :: 0 <= i < |r| ==> r[i] == SwapWord(ws[i])
  {
    seq(|ws|, i requires 0 <= i < |ws| => SwapWord(ws[i]))
  }

  /** Summing words of the other byte order gives the sum in the other byte order. */
  lemma {:induction false} ByteOrderFree(ws: seq<nat>)
    requires forall i :: 0 <= i < |ws| ==> ws[i] < U16_LIMIT
    ensures OnesSum(SwapWords(ws)) == SwapWord(OnesSum(ws))
  {
    if ws != [] {
      var n := |ws| - 1;
      assert SwapWords(ws)[..n] == SwapWords(ws[..n]);
      ByteOrderFree(ws[..n]);
      SwapAdd(OnesSum(ws[..n]), ws[n]);
    }
  }

  /** The carry between the bytes goes round either way. */
  lemma SwapAdd(a: nat, b: nat)
    requires a < U16_LIMIT && b < U16_LIMIT
    ensures AddOnes(SwapWord(a), SwapWord(b)) == SwapWord(AddOnes(a, b))
  {
    SwapAddBytes(a / 256, a % 256, b / 256, b % 256);
  }

  lemma SwapAddBytes(ah: nat, al: nat, bh: nat, bl: nat)
    requires ah < 256 && al < 256 && bh < 256 && bl < 256
    ensures AddOnes(256 * al + ah, 256 * bl + bh) == SwapWord(AddOnes(256 * ah + al, 256 * bh + bl))
  {
    var low := if al + bl < 256 then 0 else 1;
    var high := if ah + bh + low < 256 then 0 else 1;
    var lo, hi := al + bl - 256 * low + high, ah + bh + low - 256 * high;
    if lo == 256 {
      SwapParts(256 * (hi + 1), hi + 1, 0);
    } else {
      SwapParts(256 * hi + lo, hi, lo);
    }
  }

  lemma SwapParts(w: nat, hi: nat, lo: nat)
    requires w == 256 * hi + lo && hi < 256 && lo < 256
    ensures SwapWord(w) == 256 * lo + hi
  {
  }
}
