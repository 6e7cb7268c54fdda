// List and number algorithms of bindings/python/rad_util.py: permutations (lines 289-326), int2bin
// and bin2int (lines 74-130), binary_range (lines 632-660).

module Permutations {
  import opened Sequences

  function Factorial(n: nat): nat {
    if n == 0 then 1 else n * Factorial(n - 1)
  }

  // new_list.insert(i, item)
  function Insert<T>(s: seq<T>, i: nat, x: T): (r: seq<T>)
    requires i <= |s|
    ensures |r| == |s| + 1
  {
    s[..i] + [x] + s[i..]
  }

  ghost predicate Rearranges<T>(p: seq<T>, list: seq<T>) {
    multiset(p) == multiset(list)
  }

  // out holds sub with x inserted at positions 0 .. n - 1, in that order.
  ghost predicate Inserted<T>(out: seq<seq<T>>, sub: seq<T>, n: nat, x: T)
    requires n <= |sub| + 1
  {
    |out| == n && forall i :: 0 <= i < n ==> out[i] == Insert(sub, i, x)
  }

  ghost function BlockIndex(a: nat, i: nat, m: nat, len: nat): (k: nat)
    requires a < m && i <= len
    ensures k < m * (len + 1)
  {
    assert (a + 1) * (len + 1) <= m * (len + 1);
    a * (len + 1) + i
  }

  // The lists come in blocks, one block for each list of subs.
  ghost predicate Blocks<T>(out: seq<seq<T>>, subs: seq<seq<T>>, len: nat, x: T)
    requires forall a :: 0 <= a < |subs| ==> |subs[a]| == len
  {
    && |out| == |subs| * (len + 1)
    && forall a, i :: 0 <= a < |subs| && 0 <= i <= len ==>
         BlockIndex(a, i, |subs|, len) < |out| && out[BlockIndex(a, i, |subs|, len)] == Insert(subs[a], i, x)
  }

  lemma Times(a: nat, b: nat, c: nat)
    requires a <= b
    ensures a * c <= b * c
  {
  }

  lemma BlockOf(k: nat, m: nat, len: nat) returns (a: nat, i: nat)
    requires k < m * (len + 1)
    ensures a < m && i <= len && k == BlockIndex(a, i, m, len)
  {
    a, i := k / (len + 1), k % (len + 1);
    assert k == a * (len + 1) + i;
    if a >= m { Times(m, a, len + 1); }
  }

  // What permutations promises of its result.
  ghost predicate AllPermutations<T(!new)>(out: seq<seq<T>>, list: seq<T>) {
    && |out| == Factorial(|list|)
    && (forall p :: p in out <==> Rearranges(p, list))
    && (Distinct(list) ==> Distinct(out))
  }

  lemma LengthsOf<T>(subs: seq<seq<T>>, list: seq<T>)
    requires forall p :: p in subs ==> Rearranges(p, list)
    ensures forall a :: 0 <= a < |subs| ==> |subs[a]| == |list|
  {
    forall a | 0 <= a < |subs| ensures |subs[a]| == |list| {
      assert subs[a] in subs;
      assert |multiset(subs[a])| == |multiset(list)|;
    }
  }

  lemma BlocksStep<T>(out: seq<seq<T>>, subs: seq<seq<T>>, n: nat, block: seq<seq<T>>, len: nat, x: T)
    requires n < |subs| && forall a :: 0 <= a < |subs| ==> |subs[a]| == len
    requires Blocks(out, subs[..n], len, x) && Inserted(block, subs[n], len + 1, x)
    ensures Blocks(out + block, subs[..n + 1], len, x)
  {
    assert (n + 1) * (len + 1) == n * (len + 1) + (len + 1);
    forall a, i | 0 <= a < n + 1 && 0 <= i <= len
      ensures BlockIndex(a, i, n + 1, len) < |out + block|
      ensures (out + block)[BlockIndex(a, i, n + 1, len)] == Insert(subs[a], i, x)
    {
      if a < n {
        assert BlockIndex(a, i, n + 1, len) == BlockIndex(a, i, n, len);
        assert out[BlockIndex(a, i, n, len)] == Insert(subs[..n][a], i, x);
      } else {
        assert (out + block)[n * (len + 1) + i] == block[i];
      }
    }
  }

  lemma ShortList<T(!new)>(list: seq<T>)
    requires |list| <= 1
    ensures AllPermutations([list], list)
  {
    forall p | Rearranges(p, list) ensures p == list {
      assert |multiset(p)| == |multiset(list)|;
      if |list| == 1 {
        assert p[0] in multiset(p) && list == [list[0]];
        assert p == [p[0]];
      }
    }
    assert Factorial(1) == 1 * Factorial(0);
  }

  lemma InsertCounts<T>(s: seq<T>, i: nat, x: T)
    requires i <= |s|
    ensures multiset(Insert(s, i, x)) == multiset(s) + multiset{x}
  {
    assert s == s[..i] + s[i..];
  }

  lemma CancelOne<T>(a: multiset<T>, b: multiset<T>, x: T)
    requires a + multiset{x} == b + multiset{x}
    ensures a == b
  {
    assert a == a + multiset{x} - multiset{x};
    assert b == b + multiset{x} - multiset{x};
  }

  lemma TakeOut<T>(p: seq<T>, list: seq<T>) returns (s: seq<T>, i: nat)
    requires list != [] && Rearranges(p, list)
    ensures i <= |s| && p == Insert(s, i, list[0]) && Rearranges(s, list[1..])
  {
    assert list == [list[0]] + list[1..];
    assert list[0] in multiset(list);
    assert list[0] in p;
    i :| 0 <= i < |p| && p[i] == list[0];
    s := p[..i] + p[i + 1..];
    assert s[..i] == p[..i] && s[i..] == p[i + 1..];
    assert p == p[..i] + [p[i]] + p[i + 1..];
    InsertCounts(s, i, list[0]);
    InsertCounts(list[1..], 0, list[0]);
    assert Insert(list[1..], 0, list[0]) == list;
    CancelOne(multiset(s), multiset(list[1..]), list[0]);
  }

  lemma MembersOfBlocks<T(!new)>(out: seq<seq<T>>, subs: seq<seq<T>>, list: seq<T>, p: seq<T>)
    requires |list| > 1 && AllPermutations(subs, list[1..])
    requires (forall a :: 0 <= a < |subs| ==> |subs[a]| == |list| - 1) && Blocks(out, subs, |list| - 1, list[0])
    ensures p in out <==> Rearranges(p, list)
  {
    var len, x := |list| - 1, list[0];
    assert list == [x] + list[1..];
    if p in out {
      var k :| 0 <= k < |out| && out[k] == p;
      var a, i := BlockOf(k, |subs|, len);
      InsertCounts(subs[a], i, x);
      assert subs[a] in subs;
    }
    if Rearranges(p, list) {
      var s, i := TakeOut(p, list);
      var a :| 0 <= a < |subs| && subs[a] == s;
      assert out[BlockIndex(a, i, |subs|, len)] == p;
    }
  }

  lemma ElsewhereAbsent<T>(p: seq<T>, list: seq<T>, x: T)
    requires Rearranges(p, list) && x !in list
    ensures x !in p
  {
    assert multiset(list)[x] == 0;
    assert multiset(p)[x] == 0;
  }

  lemma InsertElsewhere<T>(s: seq<T>, i: nat, x: T, k: nat)
    requires i <= |s| && k <= |s| && k != i
    ensures Insert(s, i, x)[k] in s
  {
    if k < i {
      assert Insert(s, i, x)[k] == s[k];
    } else {
      assert Insert(s, i, x)[k] == s[k - 1];
    }
  }

  // An item that does not occur elsewhere shows where it was inserted.
  lemma InsertInjective<T>(s: seq<T>, i: nat, t: seq<T>, j: nat, x: T)
    requires i <= |s| && j <= |t| && x !in s && x !in t && Insert(s, i, x) == Insert(t, j, x)
    ensures i == j && s == t
  {
    var r := Insert(s, i, x);
    assert r[i] == x && r[j] == x;
    if i != j {
      InsertElsewhere(t, j, x, i);
    }
    assert s == r[..i] + r[i + 1..];
    assert t == r[..j] + r[j + 1..];
  }

  lemma DistinctBlocks<T(!new)>(out: seq<seq<T>>, subs: seq<seq<T>>, list: seq<T>)
    requires |list| > 1 && AllPermutations(subs, list[1..]) && Distinct(list)
    requires (forall a :: 0 <= a < |subs| ==> |subs[a]| == |list| - 1) && Blocks(out, subs, |list| - 1, list[0])
    ensures Distinct(out)
  {
    var len, x := |list| - 1, list[0];
    assert Distinct(list[1..]);
    forall a | 0 <= a < |subs| ensures x !in subs[a] {
      assert subs[a] in subs;
      ElsewhereAbsent(subs[a], list[1..], x);
    }
    forall k, m | 0 <= k < m < |out| ensures out[k] != out[m] {
      var a, i := BlockOf(k, |subs|, len);
      var b, j := BlockOf(m, |subs|, len);
      if out[k] == out[m] {
        InsertInjective(subs[a], i, subs[b], j, x);
      }
    }
  }

  lemma FromBlocks<T(!new)>(out: seq<seq<T>>, subs: seq<seq<T>>, list: seq<T>)
    requires |list| > 1 && AllPermutations(subs, list[1..])
    requires (forall a :: 0 <= a < |subs| ==> |subs[a]| == |list| - 1) && Blocks(out, subs, |list| - 1, list[0])
    ensures AllPermutations(out, list)
  {
    forall p ensures p in out <==> Rearranges(p, list) { MembersOfBlocks(out, subs, list, p); }
    if Distinct(list) { DistinctBlocks(out, subs, list); }
    assert Factorial(|list|) == |list| * Factorial(|list| - 1);
  }

  ghost predicate Backward<T>(a: seq<T>, b: seq<T>) {
    |a| == |b| && forall j :: 0 <= j < |a| ==> a[j] == b[|b| - 1 - j]
  }

  // The first list is the input itself, the last one its reverse.
  ghost predicate FromForwardToBackward<T>(out: seq<seq<T>>, list: seq<T>) {
    out != [] && out[0] == list && Backward(out[|out| - 1], list)
  }

  lemma EndsOfBlocks<T>(out: seq<seq<T>>, subs: seq<seq<T>>, list: seq<T>)
    requires |list| > 1 && FromForwardToBackward(subs, list[1..])
    requires (forall a :: 0 <= a < |subs| ==> |subs[a]| == |list| - 1) && Blocks(out, subs, |list| - 1, list[0])
    ensures FromForwardToBackward(out, list)
  {
    var m, len := |subs|, |list| - 1;
    assert BlockIndex(0, 0, m, len) == 0 && out[0] == Insert(subs[0], 0, list[0]);
    assert Insert(subs[0], 0, list[0]) == list;
    assert (m - 1) * (len + 1) + len == m * (len + 1) - 1;
    assert BlockIndex(m - 1, len, m, len) == |out| - 1 && out[|out| - 1] == Insert(subs[m - 1], len, list[0]);
  }

  method Permutations<T(==,!new)>(inputList: seq<T>) returns (outLists: seq<seq<T>>)
    ensures AllPermutations(outLists, inputList) && FromForwardToBackward(outLists, inputList)
  {
    outLists := [];
    if |inputList| > 1 {
      var item := inputList[0];
      var subLists := Permutations(inputList[1..]);
      ghost var len := |inputList| - 1;
      LengthsOf(subLists, inputList[1..]);
      for a := 0 to |subLists|
        invariant Blocks(outLists, subLists[..a], len, item)
      {
        var block: seq<seq<T>> := [];
        for i := 0 to |inputList|
          invariant Inserted(block, subLists[a], i, item)
        {
          var newList := Insert(subLists[a], i, item);
          block := block + [newList];
        }
        BlocksStep(outLists, subLists, a, block, len, item);
        outLists := outLists + block;
      }
      assert subLists[..|subLists|] == subLists;
      FromBlocks(outLists, subLists, inputList);
      EndsOfBlocks(outLists, subLists, inputList);
    } else {
      outLists := [inputList];
      ShortList(inputList);
    }
  }
}

module BinaryNumbers {

  function Pow2(n: nat): (r: nat)
    ensures r >= 1
  {
    if n == 0 then 1 else 2 * Pow2(n - 1)
  }

  predicate IsBinary(s: string) {
    forall i :: 0 <= i < |s| ==> s[i] == '0' || s[i] == '1'
  }

  function Bit(c: char): nat { if c == '1' then 1 else 0 }

  // bin2int: int(bin_string, 2)
  function Bin2Int(s: string): nat
    requires IsBinary(s)
  {
    if s == [] then 0 else 2 * Bin2Int(s[..|s| - 1]) + Bit(s[|s| - 1])
  }

  // hex2bin
  function Nibble(d: nat): (s: string)
    requires d < 16
    ensures |s| == 4 && IsBinary(s)
  {
    [if d / 8 % 2 == 1 then '1' else '0', if d / 4 % 2 == 1 then '1' else '0',
     if d / 2 % 2 == 1 then '1' else '0', if d % 2 == 1 then '1' else '0']
  }

  // The digits of hex(i), each replaced by its four bits.
  function HexBits(i: nat): (s: string)
    ensures |s| >= 4 && IsBinary(s)
  {
    if i < 16 then Nibble(i) else HexBits(i / 16) + Nibble(i % 16)
  }

  function Zeros(n: nat): (s: string)
    ensures |s| == n && IsBinary(s)
  {
    seq(n, _ => '0')
  }

  datatype BinResult = Bits(s: string) | ValueError | KeyError

  // A negative number leaves the 'x' of "-0x..." to be looked up in hex2bin. The slice [:-n] is
  // empty and [-n:] is everything when n is 0.
  function Int2Bin(i: int, n: nat): BinResult {
    if i < 0 then KeyError
    else
      var result := HexBits(i);
      var cut := if n == 0 || n >= |result| then 0 else |result| - n;
      if '1' in result[..cut] then ValueError
      else
        var kept := result[cut..];
        Bits((if n >= |kept| then Zeros(n - |kept|) else "") + kept)
  }

  lemma {:induction false} ValueBound(s: string)
    requires IsBinary(s)
    ensures Bin2Int(s) < Pow2(|s|)
    ensures Bin2Int(s) == 0 <==> '1' !in s
  {
    if s != [] {
      var n := |s| - 1;
      ValueBound(s[..n]);
      assert s == s[..n] + [s[n]];
    }
  }

  lemma Doubled(x: nat, y: nat, z: nat)
    ensures 2 * (x * y + z) == x * (2 * y) + 2 * z
  {
  }

  lemma {:induction false} ValueConcat(a: string, b: string)
    requires IsBinary(a) && IsBinary(b)
    ensures IsBinary(a + b) && Bin2Int(a + b) == Bin2Int(a) * Pow2(|b|) + Bin2Int(b)
  {
    if b == [] {
      assert a + b == a;
    } else {
      var n := |b| - 1;
      ValueConcat(a, b[..n]);
      assert (a + b)[..|a| + n] == a + b[..n];
      Doubled(Bin2Int(a), Pow2(n), Bin2Int(b[..n]));
    }
  }

  lemma NibbleValue(d: nat)
    requires d < 16
    ensures Bin2Int(Nibble(d)) == d
  {
    var s := Nibble(d);
    assert s[..3][..2] == s[..2] && s[..2][..1] == s[..1] && s[..1][..0] == [];
    assert Bin2Int(s) == 2 * Bin2Int(s[..3]) + Bit(s[3]);
    assert Bin2Int(s[..3]) == 2 * Bin2Int(s[..2]) + Bit(s[2]);
    assert Bin2Int(s[..2]) == 2 * Bin2Int(s[..1]) + Bit(s[1]);
    assert Bin2Int(s[..1]) == Bit(s[0]);
  }

  lemma {:induction false} HexBitsValue(i: nat)
    ensures Bin2Int(HexBits(i)) == i
  {
    if i < 16 {
      NibbleValue(i);
    } else {
      HexBitsValue(i / 16);
      NibbleValue(i % 16);
      ValueConcat(HexBits(i / 16), Nibble(i % 16));
      assert Pow2(4) == 16 by { assert Pow2(1) == 2 && Pow2(2) == 4 && Pow2(3) == 8; }
    }
  }

  lemma ZerosValue(n: nat, s: string)
    requires IsBinary(s)
    ensures IsBinary(Zeros(n) + s) && Bin2Int(Zeros(n) + s) == Bin2Int(s)
  {
    ValueConcat(Zeros(n), s);
    ValueBound(Zeros(n));
  }

  lemma HighPart(high: nat, low: nat, p: nat)
    requires low < p
    ensures high * p + low >= p <==> high >= 1
  {
    if high >= 1 { assert high * p >= p; }
  }

  lemma {:induction false} PowGrows(m: nat, n: nat)
    requires m <= n
    ensures Pow2(m) <= Pow2(n)
  {
    if m < n { PowGrows(m, n - 1); }
  }

  lemma WideEnough(i: nat, n: nat)
    requires n >= |HexBits(i)|
    ensures i < Pow2(n) && Int2Bin(i, n) == Bits(Zeros(n - |HexBits(i)|) + HexBits(i))
    ensures IsBinary(Int2Bin(i, n).s) && Bin2Int(Int2Bin(i, n).s) == i
  {
    var result := HexBits(i);
    HexBitsValue(i);
    ValueBound(result);
    PowGrows(|result|, n);
    ZerosValue(n - |result|, result);
    assert result[0..] == result && '1' !in result[..0];
  }

  lemma CutOff(i: nat, n: nat, high: string, low: string)
    requires 1 <= n == |low| && high + low == HexBits(i)
    ensures Int2Bin(i, n) == if '1' in high then ValueError else Bits(low)
  {
    assert HexBits(i)[..|high|] == high && HexBits(i)[|high|..] == low;
    assert Zeros(0) + low == low;
  }

  lemma HighBitsDecide(i: nat, n: nat, high: string, low: string)
    requires n == |low| && high + low == HexBits(i)
    ensures IsBinary(high) && IsBinary(low)
    ensures i >= Pow2(n) <==> '1' in high
    ensures '1' !in high ==> Bin2Int(low) == i
  {
    forall k | 0 <= k < |high| ensures high[k] == HexBits(i)[k] { }
    forall k | 0 <= k < |low| ensures low[k] == HexBits(i)[|high| + k] { }
    HexBitsValue(i);
    ValueConcat(high, low);
    ValueBound(high);
    ValueBound(low);
    HighPart(Bin2Int(high), Bin2Int(low), Pow2(n));
  }

  // Raises exactly when the number needs more than n bits; otherwise n bits that bin2int reads back.
  lemma Int2BinRoundTrip(i: nat, n: nat)
    requires n >= 1
    ensures Int2Bin(i, n) == ValueError <==> i >= Pow2(n)
    ensures i < Pow2(n) ==> Int2Bin(i, n).Bits? && |Int2Bin(i, n).s| == n
                            && IsBinary(Int2Bin(i, n).s) && Bin2Int(Int2Bin(i, n).s) == i
  {
    var result := HexBits(i);
    if n >= |result| {
      WideEnough(i, n);
    } else {
      var cut := |result| - n;
      assert result == result[..cut] + result[cut..];
      CutOff(i, n, result[..cut], result[cut..]);
      HighBitsDecide(i, n, result[..cut], result[cut..]);
    }
  }

  // With no bits at all nothing is checked and nothing is cut off.
  lemma Int2BinNoBits(i: nat)
    ensures Int2Bin(i, 0) == Bits(HexBits(i)) && Bin2Int(HexBits(i)) == i
  {
    HexBitsValue(i);
    assert HexBits(i)[0..] == HexBits(i);
  }

  lemma {:induction false} SameValueSameBits(a: string, b: string)
    requires IsBinary(a) && IsBinary(b) && |a| == |b| && Bin2Int(a) == Bin2Int(b)
    ensures a == b
  {
    if a != [] {
      var n := |a| - 1;
      SameValueSameBits(a[..n], b[..n]);
      assert a == a[..n] + [a[n]] && b == b[..n] + [b[n]];
    }
  }

  lemma LastDigit(s: string, c: char)
    requires IsBinary(s) && (c == '0' || c == '1')
    ensures IsBinary(s + [c]) && Bin2Int(s + [c]) == 2 * Bin2Int(s) + Bit(c)
  {
    assert (s + [c])[..|s|] == s;
  }

  lemma FourDigits(a: char, b: char, c: char, d: char)
    requires IsBinary([a, b, c, d])
    ensures Bin2Int([a, b, c, d]) == 8 * Bit(a) + 4 * Bit(b) + 2 * Bit(c) + Bit(d)
  {
    var s := [a, b, c, d];
    assert s[0] == a && s[1] == b && s[2] == c && s[3] == d;
    assert [] + [a] == [a] && [a] + [b] == [a, b] && [a, b] + [c] == [a, b, c] && [a, b, c] + [d] == [a, b, c, d];
    LastDigit([], a);
    LastDigit([a], b);
    LastDigit([a, b], c);
    LastDigit([a, b, c], d);
  }

  // The examples in the descriptions of int2bin and bin2int, and a negative number.
  lemma DocumentedExamples()
    ensures Int2Bin(0, 8) == Bits("00000000") && Int2Bin(123, 8) == Bits("01111011")
    ensures Int2Bin(15, 2) == ValueError && Int2Bin(-5, 8) == KeyError
    ensures Bin2Int("1111") == 15 && Bin2Int("0101") == 5
  {
    assert Nibble(0) == "0000" && Nibble(7) == "0111" && Nibble(11) == "1011" && Nibble(15) == "1111";
    assert HexBits(0) == "0000" && HexBits(7) == "0111" && HexBits(15) == "1111";
    assert 123 / 16 == 7 && 123 % 16 == 11;
    assert HexBits(123) == HexBits(7) + Nibble(11);
    assert "0111" + "1011" == "01111011";
    assert HexBits(15)[..2] == "11";
    assert Zeros(4) + "0000" == "00000000" && Zeros(0) + "01111011" == "01111011";
    assert "01111011"[0..] == "01111011" && "0000"[0..] == "0000";
    FourDigits('1', '1', '1', '1');
    FourDigits('0', '1', '0', '1');
  }

  // ---------- binary_range ----------

  // The list v holds the least significant bit first.
  function Counter(v: string): nat
    requires IsBinary(v)
  {
    if v == [] then 0 else Bit(v[0]) + 2 * Counter(v[1..])
  }

  function Reversed(v: string): (r: string)
    ensures |r| == |v| && (IsBinary(v) ==> IsBinary(r))
  {
    seq(|v|, i requires 0 <= i < |v| => v[|v| - 1 - i])
  }

  lemma {:induction false} ReversedValue(v: string)
    requires IsBinary(v)
    ensures Bin2Int(Reversed(v)) == Counter(v)
  {
    if v != [] {
      ReversedValue(v[1..]);
      assert Reversed(v)[..|v| - 1] == Reversed(v[1..]);
    }
  }

  lemma {:induction false} SetBit(v: string, i: nat, c: char)
    requires IsBinary(v) && i < |v| && (c == '0' || c == '1')
    ensures IsBinary(v[i := c]) && Counter(v[i := c]) + Bit(v[i]) * Pow2(i) == Counter(v) + Bit(c) * Pow2(i)
  {
    if i == 0 {
      assert v[0 := c][1..] == v[1..];
    } else {
      SetBit(v[1..], i - 1, c);
      assert v[i := c][1..] == v[1..][i - 1 := c];
      assert Bit(v[i]) * Pow2(i) == 2 * (Bit(v[i]) * Pow2(i - 1));
      assert Bit(c) * Pow2(i) == 2 * (Bit(c) * Pow2(i - 1));
    }
  }

  lemma {:induction false} CounterBound(v: string)
    requires IsBinary(v)
    ensures Counter(v) < Pow2(|v|)
  {
    if v != [] { CounterBound(v[1..]); }
  }

  lemma {:induction false} ZeroCounter(n: nat)
    ensures Counter(Zeros(n)) == 0
  {
    if n > 0 {
      ZeroCounter(n - 1);
      assert Zeros(n)[1..] == Zeros(n - 1);
    }
  }

  // The inner loop: the carry ripples through v; carry is the final toggle[bits].
  method Ripple(v0: string) returns (v: string, toggle: seq<int>)
    requires IsBinary(v0)
    ensures IsBinary(v) && |v| == |v0| && |toggle| == |v0| + 1
    ensures toggle[|v0|] == 0 || toggle[|v0|] == 1
    ensures Counter(v) + toggle[|v0|] * Pow2(|v0|) == Counter(v0) + 1
  {
    var bits := |v0|;
    v := v0;
    toggle := [1] + seq(bits, _ => 0);
    var i := 0;
    while i < bits && toggle[i] == 1
      invariant i <= bits && IsBinary(v) && |v| == bits && |toggle| == bits + 1
      invariant toggle[i] == 0 || toggle[i] == 1
      invariant forall j :: i < j <= bits ==> toggle[j] == 0
      invariant Counter(v) + toggle[i] * Pow2(i) == Counter(v0) + 1
      decreases bits - i
    {
      if v[i] == '0' {
        SetBit(v, i, '1');
        v := v[i := '1'];
        toggle := toggle[i + 1 := 0];
      } else {
        SetBit(v, i, '0');
        v := v[i := '0'];
        toggle := toggle[i + 1 := 1];
      }
      i := i + 1;
    }
  }

  // The copy that is printed is what int2bin gives for the value counted.
  lemma CounterPrinted(v: string)
    requires IsBinary(v) && v != []
    ensures Int2Bin(Counter(v), |v|) == Bits(Reversed(v))
  {
    ReversedValue(v);
    CounterBound(v);
    Int2BinRoundTrip(Counter(v), |v|);
    SameValueSameBits(Reversed(v), Int2Bin(Counter(v), |v|).s);
  }

  // The k-th string is int2bin(k, bits).
  ghost predicate Counting(l: seq<string>, bits: nat) {
    forall k :: 0 <= k < |l| ==> Int2Bin(k, bits) == Bits(l[k])
  }

  lemma CountingStep(l: seq<string>, v: string)
    requires IsBinary(v) && v != [] && Counting(l, |v|) && Counter(v) == |l|
    ensures Counting(l + [Reversed(v)], |v|)
  {
    var more := l + [Reversed(v)];
    CounterPrinted(v);
    forall k | 0 <= k < |more| ensures Int2Bin(k, |v|) == Bits(more[k]) {
      if k < |l| {
        assert more[k] == l[k];
      } else {
        assert k == |l| == Counter(v);
      }
    }
  }

  lemma CarryMeansAll(v: string, carry: int, count: nat)
    requires IsBinary(v) && (carry == 0 || carry == 1) && count <= Pow2(|v|)
    requires Counter(v) + carry * Pow2(|v|) == count
    ensures carry == 1 <==> count == Pow2(|v|)
    ensures carry == 0 ==> Counter(v) == count < Pow2(|v|)
  {
    CounterBound(v);
  }

  // All numbers of the given width, in order; but no number at all, instead of one, for width 0.
  method BinaryRange(bits: nat) returns (l: seq<string>)
    ensures bits == 0 ==> l == []
    ensures bits >= 1 ==> |l| == Pow2(bits)
    ensures Counting(l, bits)
  {
    l := [];
    var v := Zeros(bits);
    var toggle: seq<int> := [1] + seq(bits, _ => 0);
    ZeroCounter(bits);
    while toggle[bits] != 1
      invariant IsBinary(v) && |v| == bits && |toggle| == bits + 1
      invariant toggle[bits] == 0 || toggle[bits] == 1
      invariant toggle[bits] == 0 ==> bits >= 1 && Counter(v) == |l| < Pow2(bits)
      invariant toggle[bits] == 1 ==> if bits == 0 then l == [] else |l| == Pow2(bits)
      invariant Counting(l, bits)
      decreases Pow2(bits) - |l|
    {
      var copy := Reversed(v);
      CountingStep(l, v);
      l := l + [copy];
      v, toggle := Ripple(v);
      CarryMeansAll(v, toggle[bits], |l|);
    }
  }
}
