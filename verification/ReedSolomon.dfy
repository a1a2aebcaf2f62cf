/**
 The wrappers libndnpaxos/rs_encoder.hpp and libndnpaxos/rs_decoder.hpp: splitting a string
 into k blocks, adding n - k check blocks, and rebuilding the string from the blocks present.
 */
module ReedSolomon {
  import opened GaloisField
  import opened LinearAlgebra
  import opened VandermondeTheory
  import opened FecKernels
  import opened MatrixInversion
  import opened ErasureCode

  type Bytes = seq<Gf>

  /** The first `n` blocks of `blk` bytes, one after the other. */
  function Concat(blocks: seq<Bytes>, n: nat): (r: Bytes)
    requires n <= |blocks|
  {
    if n == 0 then [] else Concat(blocks, n - 1) + blocks[n - 1]
  }

  /** The string cut into k blocks of `blk` bytes. */
  function Split(data: Bytes, k: nat, blk: nat): (blocks: seq<Bytes>)
    requires |data| == k * blk
    ensures |blocks| == k && forall i :: 0 <= i < k ==> |blocks[i]| == blk
    ensures Concat(blocks, k) == data
    decreases k
  {
    if k == 0 then [] else
      var front := (k - 1) * blk;
      var rest := Split(data[..front], k - 1, blk);
      ConcatPrefix(rest, data[front..], k - 1);
      rest + [data[front..]]
  }

  lemma {:induction false} ConcatPrefix(blocks: seq<Bytes>, last: Bytes, n: nat)
    requires n <= |blocks|
    ensures Concat(blocks + [last], n) == Concat(blocks, n)
  {
    if n > 0 {
      ConcatPrefix(blocks, last, n - 1);
    }
  }

  lemma {:induction false} ConcatEqual(a: seq<Bytes>, b: seq<Bytes>, n: nat)
    requires n <= |a| && n <= |b| && forall i :: 0 <= i < n ==> a[i] == b[i]
    ensures Concat(a, n) == Concat(b, n)
  {
    if n > 0 {
      ConcatEqual(a, b, n - 1);
    }
  }

  lemma MulMonotone(a: nat, b: nat, c: nat)
    requires a <= b
    ensures a * c <= b * c
  {}

  /** Block `i` starts at byte i * blk, where the encoder's pointer arithmetic finds it. */
  lemma {:induction false} SplitAt(data: Bytes, k: nat, blk: nat, i: nat)
    requires |data| == k * blk && i < k
    ensures 0 <= i * blk && i * blk + blk <= |data|
    ensures Split(data, k, blk)[i] == data[i * blk..i * blk + blk]
    decreases k
  {
    var front := (k - 1) * blk;
    assert front + blk == k * blk;
    MulMonotone(i, k - 1, blk);
    if i < k - 1 {
      SplitAt(data[..front], k - 1, blk, i);
    }
  }

  /** The size of a block: the length of the string divided by k, rounded up. */
  function BlockSize(size: nat, k: nat): nat
    requires k > 0
  {
    (size + k - 1) / k
  }

  /** How many bytes the string is short of k full blocks. */
  function Lack(size: nat, k: nat): (lack: nat)
    requires k > 0
    ensures lack < k && size + lack == k * BlockSize(size, k)
  {
    var up := size + k - 1;
    assert up == k * (up / k) + up % k;
    k - 1 - up % k
  }

  /** What a pointer to the string sees: the bytes and the zero that ends them. */
  function Terminated(s: Bytes): (r: Bytes)
    ensures |r| == |s| + 1
  {
    s + [0]
  }

  /** The k full blocks the encoder reads. One byte past the string it finds the final zero. */
  function Padded(data: Bytes, k: nat): (p: Bytes)
    requires k > 0 && Lack(|data|, k) <= 1
    ensures |p| == k * BlockSize(|data|, k) && data <= p && (Lack(|data|, k) == 0 ==> p == data)
  {
    Terminated(data)[..k * BlockSize(|data|, k)]
  }

  /** At most `len` bytes from `pos` on. */
  function Substr(s: Bytes, pos: nat, len: nat): Bytes
    requires pos <= |s|
  {
    if pos + len <= |s| then s[pos..pos + len] else s[pos..]
  }

  /** All n blocks of the code word that belongs to a string of k full blocks. */
  ghost predicate IsCodeWord(word: seq<Bytes>, data: Bytes, k: nat, n: nat, blk: nat)
    requires |data| == k * blk
  {
    |word| == n && (forall num :: 0 <= num < n ==> |word[num]| == blk) &&
    forall num, pos :: 0 <= num < n && 0 <= pos < blk ==>
      word[num][pos] == CodeByte(Split(data, k, blk), num, pos)
  }

  /** The length of the blocks: the last primary one may be a byte short. */
  function BlockLength(size: nat, k: nat, num: nat): nat
    requires k > 0 && Lack(size, k) <= BlockSize(size, k)
  {
    if num == k - 1 then BlockSize(size, k) - Lack(size, k) else BlockSize(size, k)
  }

  lemma LackFits(size: nat, k: nat)
    requires k > 0 && Lack(size, k) <= 1
    ensures Lack(size, k) <= BlockSize(size, k) && (Lack(size, k) == 1 ==> k > 1)
    ensures size == 0 <==> BlockSize(size, k) == 0
  {
    var blk, lack := BlockSize(size, k), Lack(size, k);
    if blk == 0 {
      assert size + lack == k * 0 == 0;
    } else {
      MulMonotone(1, blk, k);
    }
  }

  /** The blocks as pointers see them. */
  ghost function Full(word: seq<Bytes>, blk: nat): (full: seq<Bytes>)
    requires forall i :: 0 <= i < |word| ==> blk <= |word[i]| + 1
    ensures |full| == |word| && forall i :: 0 <= i < |word| ==> full[i] == Terminated(word[i])[..blk]
  {
    seq(|word|, i requires 0 <= i < |word| => Terminated(word[i])[..blk])
  }

  /** The n blocks of a string: completed by the zero at their end, they are a code word. */
  ghost predicate IsEncoding(word: seq<Bytes>, data: Bytes, k: nat, n: nat)
    requires k > 0 && Lack(|data|, k) <= 1
  {
    LackFits(|data|, k);
    var blk := BlockSize(|data|, k);
    |word| == n && (forall num :: 0 <= num < n ==> |word[num]| == BlockLength(|data|, k, num)) &&
    IsCodeWord(Full(word, blk), Padded(data, k), k, n, blk)
  }

  /** Copies a byte string into a buffer. */
  method Buffer(s: Bytes) returns (a: array<Gf>)
    ensures fresh(a) && a[..] == s
  {
    a := new Gf[|s|](i requires 0 <= i < |s| => s[i]);
  }

  method Buffers(blocks: seq<Bytes>) returns (a: seq<array<Gf>>)
    ensures fresh(a) && |a| == |blocks| && Rows(a) == blocks
    ensures forall i, j :: 0 <= i < j < |a| ==> a[i] != a[j]
  {
    a := [];
    while |a| < |blocks|
      invariant |a| <= |blocks| && fresh(a)
      invariant forall i :: 0 <= i < |a| ==> a[i][..] == blocks[i]
      invariant forall i, j :: 0 <= i < j < |a| ==> a[i] != a[j]
    {
      var b := Buffer(blocks[|a|]);
      a := a + [b];
    }
  }

  class RSEncoder {
    const t: Tables
    const fec: Fec
    const k: nat
    const n: nat
    const c: nat
    var encodedData: seq<Bytes>

    ghost predicate Valid()
      reads t.gfExp, t.inverse, t.gfMulTable, fec.encMatrix
    {
      t.Valid() && fec.Valid() && fec.k == k && fec.n == n && 0 < k <= n <= 256 && k <= 255 && c == n - k
    }

    constructor (t: Tables, k: nat, n: nat)
      requires t.Valid() && 0 < k <= n <= 256 && k <= 255
      ensures Valid() && this.t == t && this.k == k && this.n == n && encodedData == []
    {
      this.t, this.k, this.n, this.c := t, k, n, n - k;
      fec := new Fec(t, k, n);
      encodedData := [];
    }

    /**
     Splits `data` into k blocks and adds n - k check blocks. They are put behind the blocks of
     earlier calls, and all of them are returned. The pointers to the blocks stay within the string
     and its final zero.
     */
    method RsEncode(data: Bytes) returns (r: seq<Bytes>)
      requires Valid() && Lack(|data|, k) <= 1
      modifies this
      ensures r == encodedData && old(encodedData) <= r
      ensures IsEncoding(r[|old(encodedData)|..], data, k, n)
    {
      hide Tables.Valid, Fec.Valid, CodeByte, ChecksOf;
      var blk := BlockSize(|data|, k);
      var src := PrimaryBlocks(data, blk);
      var fecs := CheckBlocks(src, blk);
      AppendChecks(fecs);
      r := encodedData;
      EncodingFromParts(r[|old(encodedData)|..], data, k, n, Rows(fecs));
    }

    /** Buffers for the check blocks, which are numbered from k on. */
    method CheckBuffers(src: seq<array<Gf>>, blk: nat) returns (fecs: seq<array<Gf>>, nums: seq<nat>)
      requires Valid() && |src| == k
      ensures |fecs| == |nums| == c && fresh(fecs) && OutputBuffers(t, fecs, src, fec.encMatrix, blk)
      ensures forall i :: 0 <= i < c ==> fecs[i].Length == blk && nums[i] == k + i
    {
      fecs := AllocateMatrix(c, blk);
      nums := [];
      var i := 0;
      while i < c
        invariant 0 <= i <= c && |nums| == i && forall j :: 0 <= j < i ==> nums[j] == k + j
      {
        nums := nums + [k + i];
        i := i + 1;
      }
      FreshOutputs(t, fecs, src, fec.encMatrix, blk);
    }

    /** The check blocks. */
    method CheckBlocks(src: seq<array<Gf>>, blk: nat) returns (fecs: seq<array<Gf>>)
      requires Valid() && |src| == k && forall j :: 0 <= j < k ==> src[j].Length == blk
      ensures |fecs| == c && Valid()
      ensures forall i :: 0 <= i < c ==> fecs[i].Length == blk
      ensures |Rows(src)| == k && ChecksOf(Rows(fecs), Rows(src), blk)
    {
      hide Tables.Valid, Fec.Valid, CodeByte, Encoded, OutputBuffers, ChecksOf;
      var nums;
      fecs, nums := CheckBuffers(src, blk);
      ghost var before := Rows(fecs);
      FecEncode(t, fec, src, fecs, nums, blk);
      ChecksComplete(Rows(fecs), before, Rows(src), nums, blk);
    }

    method AppendChecks(fecs: seq<array<Gf>>)
      modifies this
      ensures encodedData == old(encodedData) + Rows(fecs)
    {
      var i := 0;
      while i < |fecs|
        invariant 0 <= i <= |fecs| && encodedData == old(encodedData) + Rows(fecs)[..i]
      {
        encodedData := encodedData + [fecs[i][..]];
        i := i + 1;
      }
    }

    /** The primary blocks: recorded in the result, and as buffers for the encoder. */
    method PrimaryBlocks(data: Bytes, blk: nat) returns (src: seq<array<Gf>>)
      requires k > 0 && Lack(|data|, k) <= 1 && blk == BlockSize(|data|, k)
      modifies this
      ensures encodedData == old(encodedData) + Primaries(data, k)
      ensures fresh(src) && |src| == k && Rows(src) == Split(Padded(data, k), k, blk)
    {
      src := [];
      ghost var blocks := Split(Padded(data, k), k, blk);
      ghost var primaries := Primaries(data, k);
      var i := 0;
      while i < k
        invariant 0 <= i <= k == |blocks| && |src| == i && fresh(src)
        invariant encodedData == old(encodedData) + primaries[..i]
        invariant forall j :: 0 <= j < i ==> src[j][..] == blocks[j]
      {
        SplitAt(Padded(data, k), k, blk, i);
        PrimaryStarts(data, k, i);
        var b := Buffer(Terminated(data)[i * blk..i * blk + blk]);
        src := src + [b];
        encodedData := encodedData + [Substr(data, i * blk, blk)];
        i := i + 1;
      }
    }
  }

  /** The primary blocks as they are sent. */
  ghost function Primaries(data: Bytes, k: nat): (blocks: seq<Bytes>)
    requires k > 0 && Lack(|data|, k) <= 1
    ensures |blocks| == k
  {
    var blk := BlockSize(|data|, k);
    seq(k, i requires 0 <= i < k => (PrimaryStarts(data, k, i); Substr(data, i * blk, blk)))
  }

  /** Every primary block starts within the string. */
  lemma PrimaryStarts(data: Bytes, k: nat, i: nat)
    requires i < k && Lack(|data|, k) <= 1
    ensures 0 <= i * BlockSize(|data|, k) <= |data|
    ensures i * BlockSize(|data|, k) + BlockSize(|data|, k) <= |data| + 1
    ensures i < k - 1 ==> i * BlockSize(|data|, k) + BlockSize(|data|, k) <= |data|
  {
    var blk := BlockSize(|data|, k);
    LackFits(|data|, k);
    MulMonotone(i + 1, k, blk);
    assert (i + 1) * blk == i * blk + blk;
    if i < k - 1 {
      MulMonotone(i + 2, k, blk);
      assert (i + 2) * blk == i * blk + blk + blk;
    }
  }

  /** With the final zero, a primary block is a full block of the padded string. */
  lemma PrimaryCompleted(data: Bytes, k: nat, i: nat)
    requires i < k && Lack(|data|, k) <= 1
    ensures Lack(|data|, k) <= BlockSize(|data|, k)
    ensures |Primaries(data, k)[i]| == BlockLength(|data|, k, i)
    ensures Terminated(Primaries(data, k)[i])[..BlockSize(|data|, k)] ==
      Split(Padded(data, k), k, BlockSize(|data|, k))[i]
  {
    var blk := BlockSize(|data|, k);
    LackFits(|data|, k);
    PrimaryStarts(data, k, i);
    SplitAt(Padded(data, k), k, blk, i);
    if i == k - 1 {
      assert k * blk == i * blk + blk;
    }
  }

  lemma FreshOutputs(t: Tables, out: seq<array<Gf>>, src: seq<array<Gf>>, enc: seq<array<Gf>>, sz: nat)
    requires forall i, j :: 0 <= i < j < |out| ==> out[i] != out[j]
    requires forall i :: 0 <= i < |out| ==> sz <= out[i].Length && t.Apart(out[i]) && out[i] !in src && out[i] !in enc
    ensures OutputBuffers(t, out, src, enc, sz)
  {}

  lemma ChecksComplete(checks: seq<Bytes>, before: seq<Bytes>, data: seq<Bytes>, nums: seq<nat>, blk: nat)
    requires forall j :: 0 <= j < |data| ==> |data[j]| == blk
    requires |checks| == |before| == |nums| && forall i :: 0 <= i < |nums| ==> nums[i] == |data| + i
    requires forall i :: 0 <= i < |checks| ==> |checks[i]| == blk && Encoded(checks[i], before[i], data, nums[i], blk)
    ensures ChecksOf(checks, data, blk)
  {
    hide CodeByte;
  }

  /** The check blocks of the code word, numbered from k on. */
  ghost predicate ChecksOf(checks: seq<Bytes>, data: seq<Bytes>, blk: nat)
    requires forall j :: 0 <= j < |data| ==> |data[j]| == blk
  {
    forall i, pos :: 0 <= i < |checks| && 0 <= pos < blk ==>
      |checks[i]| == blk && checks[i][pos] == CodeByte(data, |data| + i, pos)
  }

  lemma CodeWordFromParts(word: seq<Bytes>, data: Bytes, k: nat, n: nat, blk: nat, checks: seq<Bytes>)
    requires k <= n && |checks| == n - k && |data| == k * blk
    requires word == Split(data, k, blk) + checks
    requires forall i :: 0 <= i < n - k ==> |checks[i]| == blk
    requires ChecksOf(checks, Split(data, k, blk), blk)
    ensures IsCodeWord(word, data, k, n, blk)
  {
    hide CodeByte;
    var blocks := Split(data, k, blk);
    forall num | 0 <= num < n
      ensures |word[num]| == blk
      ensures forall pos :: 0 <= pos < blk ==> word[num][pos] == CodeByte(blocks, num, pos)
    {
      if num < k {
        forall pos | 0 <= pos < blk
          ensures word[num][pos] == CodeByte(blocks, num, pos)
        {
          PrimaryByte(blocks, num, pos);
        }
      } else {
        var i := num - k;
        assert word[num] == checks[i];
      }
    }
  }

  lemma EncodingFromParts(word: seq<Bytes>, data: Bytes, k: nat, n: nat, checks: seq<Bytes>)
    requires 0 < k <= n && |checks| == n - k && Lack(|data|, k) <= 1
    requires word == Primaries(data, k) + checks
    requires forall i :: 0 <= i < n - k ==> |checks[i]| == BlockSize(|data|, k)
    requires ChecksOf(checks, Split(Padded(data, k), k, BlockSize(|data|, k)), BlockSize(|data|, k))
    ensures IsEncoding(word, data, k, n)
  {
    hide CodeByte, ChecksOf, IsCodeWord, Primaries, Terminated;
    var blk := BlockSize(|data|, k);
    LackFits(|data|, k);
    forall num | 0 <= num < n
      ensures |word[num]| == BlockLength(|data|, k, num)
      ensures Terminated(word[num])[..blk] == (Split(Padded(data, k), k, blk) + checks)[num]
    {
      if num < k {
        PrimaryCompleted(data, k, num);
      } else {
        assert word[num] == checks[num - k];
        TerminatedFull(word[num]);
      }
    }
    assert Full(word, blk) == Split(Padded(data, k), k, blk) + checks;
    CodeWordFromParts(Full(word, blk), Padded(data, k), k, n, blk, checks);
  }

  lemma TerminatedFull(s: Bytes)
    ensures Terminated(s)[..|s|] == s
  {}

  // ---------------------------------------------------------------- decoding

  /** How many of the blocks from `lo` up to `hi` are present. */
  function Present(have: seq<bool>, lo: nat, hi: nat): (c: nat)
    requires lo <= hi <= |have|
    ensures c <= hi - lo
    decreases hi - lo
  {
    if lo == hi then 0 else (if have[lo] then 1 else 0) + Present(have, lo + 1, hi)
  }

  lemma {:induction false} PresentSplit(have: seq<bool>, lo: nat, mid: nat, hi: nat)
    requires lo <= mid <= hi <= |have|
    ensures Present(have, lo, hi) == Present(have, lo, mid) + Present(have, mid, hi)
    decreases mid - lo
  {
    if lo < mid {
      PresentSplit(have, lo + 1, mid, hi);
    }
  }

  /** The blocks that the receiver holds; a block that is not present is an empty string. */
  ghost predicate Arrived(blocks: seq<Bytes>, have: seq<bool>, data: Bytes, k: nat, n: nat)
    requires k > 0 && Lack(|data|, k) <= 1
  {
    LackFits(|data|, k);
    var blk := BlockSize(|data|, k);
    |blocks| == |have| == n &&
    (forall i :: 0 <= i < n ==> |blocks[i]| == if have[i] then BlockLength(|data|, k, i) else 0) &&
    forall i, pos :: 0 <= i < n && 0 <= pos < blk && have[i] ==>
      Terminated(blocks[i])[pos] == CodeByte(Split(Padded(data, k), k, blk), i, pos)
  }

  /** What is left of an encoder's output after losing some blocks is what the decoder expects. */
  lemma CodeWordArrives(word: seq<Bytes>, blocks: seq<Bytes>, have: seq<bool>, data: Bytes, k: nat, n: nat)
    requires k > 0 && Lack(|data|, k) <= 1 && IsEncoding(word, data, k, n)
    requires |blocks| == |have| == n
    requires forall i :: 0 <= i < n ==> blocks[i] == if have[i] then word[i] else []
    ensures Arrived(blocks, have, data, k, n)
  {
    hide CodeByte, Padded, Split;
    LackFits(|data|, k);
    var blk := BlockSize(|data|, k);
    forall i, pos | 0 <= i < n && 0 <= pos < blk && have[i]
      ensures Terminated(blocks[i])[pos] == CodeByte(Split(Padded(data, k), k, blk), i, pos)
    {
      assert Full(word, blk)[i][pos] == Terminated(word[i])[pos];
    }
  }

  /** What the decoder reads from the blocks. */
  lemma ArrivedBlocks(blocks: seq<Bytes>, have: seq<bool>, data: Bytes, k: nat, n: nat)
    requires 0 < k <= n && Lack(|data|, k) <= 1 && Arrived(blocks, have, data, k, n)
    ensures |blocks| == |have| == n && |blocks[0]| == if have[0] then BlockSize(|data|, k) else 0
    ensures forall i :: 0 <= i < n && have[i] ==> BlockSize(|data|, k) <= |blocks[i]| + 1
    ensures forall i, pos :: 0 <= i < n && 0 <= pos < BlockSize(|data|, k) && have[i] ==>
      Terminated(blocks[i])[pos] == CodeByte(Split(Padded(data, k), k, BlockSize(|data|, k)), i, pos)
  {
    hide CodeByte, Padded, Split, Terminated;
    LackFits(|data|, k);
  }

  /** The block numbers chosen before place `i`: primaries in place, check blocks below `r` otherwise. */
  ghost predicate ChosenUpTo(index: seq<nat>, have: seq<bool>, k: nat, r: nat, i: nat) {
    |index| == i <= k <= r <= |have| &&
    (forall j :: 0 <= j < i ==> index[j] < r && have[index[j]]) &&
    (forall j :: 0 <= j < i ==> if have[j] then index[j] == j else index[j] >= k) &&
    (forall j, l :: 0 <= j < l < i ==> index[j] != index[l])
  }

  lemma ChosenStart(have: seq<bool>, k: nat)
    requires k <= |have|
    ensures ChosenUpTo([], have, k, k, 0)
  {}

  lemma ChosenPrimary(index: seq<nat>, have: seq<bool>, k: nat, r: nat, i: nat)
    requires ChosenUpTo(index, have, k, r, i) && i < k && have[i]
    ensures ChosenUpTo(index + [i], have, k, r, i + 1)
  {}

  lemma ChosenCheck(index: seq<nat>, have: seq<bool>, k: nat, r: nat, i: nat)
    requires ChosenUpTo(index, have, k, r, i) && i < k && !have[i] && r < |have| && have[r]
    ensures ChosenUpTo(index + [r], have, k, r + 1, i + 1)
  {}

  lemma ChosenSkip(index: seq<nat>, have: seq<bool>, k: nat, r: nat, i: nat)
    requires ChosenUpTo(index, have, k, r, i) && r < |have|
    ensures ChosenUpTo(index, have, k, r + 1, i)
  {}

  lemma PresentStep(have: seq<bool>, lo: nat, hi: nat)
    requires lo < hi <= |have|
    ensures Present(have, lo, hi) == (if have[lo] then 1 else 0) + Present(have, lo + 1, hi)
  {}

  /** Picks a block for each of the k places; the search never leaves the block list. */
  method ChooseBlocks(have: seq<bool>, k: nat) returns (index: seq<nat>)
    requires k <= |have| && Present(have, 0, |have|) >= k
    ensures exists r: nat :: ChosenUpTo(index, have, k, r, k)
  {
    hide ChosenUpTo, Present;
    index := [];
    var r: nat := k;
    var i: nat := 0;
    PresentSplit(have, 0, k, |have|);
    ChosenStart(have, k);
    while i < k
      invariant 0 <= i <= k <= r <= |have| && ChosenUpTo(index, have, k, r, i)
      invariant Present(have, r, |have|) + Present(have, i, k) >= k - i
    {
      PresentStep(have, i, k);
      if have[i] {
        ChosenPrimary(index, have, k, r, i);
        index := index + [i];
      } else {
        while !have[r]
          invariant k <= r < |have| && ChosenUpTo(index, have, k, r, i)
          invariant Present(have, r, |have|) >= k - i - Present(have, i + 1, k) > 0
          decreases |have| - r
        {
          PresentStep(have, r, |have|);
          ChosenSkip(index, have, k, r, i);
          r := r + 1;
        }
        PresentStep(have, r, |have|);
        ChosenCheck(index, have, k, r, i);
        index := index + [r];
        r := r + 1;
      }
      i := i + 1;
    }
  }

  lemma ChosenSurvive(index: seq<nat>, have: seq<bool>, k: nat, r: nat)
    requires ChosenUpTo(index, have, k, r, k)
    ensures Survivors(index, k, |have|)
    ensures |index| == k && forall j :: 0 <= j < k ==> index[j] < |have| && (index[j] >= k <==> !have[j])
    ensures forall j :: 0 <= j < k ==> have[index[j]]
  {}

  /** The missing primaries are the places without a block. */
  lemma {:induction false} MissingCount(index: seq<nat>, have: seq<bool>, k: nat, n: nat)
    requires n <= k <= |have| && |index| == k
    requires forall j :: 0 <= j < k ==> (index[j] >= k <==> !have[j])
    ensures |MissingUpTo(index, k, n)| + Present(have, 0, n) == n
  {
    if n > 0 {
      MissingCount(index, have, k, n - 1);
      PresentSplit(have, 0, n - 1, n);
    }
  }

  lemma MissingAt(index: seq<nat>, k: nat, i: nat)
    requires i < |index| == k && index[i] >= k
    ensures |MissingUpTo(index, k, i)| < |MissingUpTo(index, k, k)|
    ensures MissingUpTo(index, k, k)[|MissingUpTo(index, k, i)|] == i
    ensures |MissingUpTo(index, k, i + 1)| == |MissingUpTo(index, k, i)| + 1
  {
    MissingPrefix(index, k, i + 1, k);
  }

  /** The strings that `rs_decode` appends, place by place. */
  ghost function Pieces(blocks: seq<Bytes>, have: seq<bool>, rebuilt: seq<Bytes>, k: nat): (p: seq<Bytes>)
    requires k <= |blocks| && k <= |have| && k <= |rebuilt|
    ensures |p| == k && forall i :: 0 <= i < k ==> p[i] == if have[i] then blocks[i] else rebuilt[i]
  {
    seq(k, i requires 0 <= i < k => if have[i] then blocks[i] else rebuilt[i])
  }

  lemma ConcatNone(blocks: seq<Bytes>)
    ensures Concat(blocks, 0) == []
  {}

  lemma ConcatNext(blocks: seq<Bytes>, i: nat)
    requires i < |blocks|
    ensures Concat(blocks, i + 1) == Concat(blocks, i) + blocks[i]
  {}

  lemma RebuiltAt(out: seq<array<Gf>>, missing: seq<nat>, expected: seq<Bytes>, sz: nat, o: nat)
    requires Rebuilt(Rows(out), missing, expected, sz) && o < |missing|
    requires forall i :: 0 <= i < |out| ==> out[i].Length == sz
    ensures o < |out| && missing[o] < |expected| && out[o][..] == expected[missing[o]]
  {
    assert Rows(out)[o] == out[o][..];
    assert out[o][..][..sz] == out[o][..];
  }

  lemma MissingEmpty(index: seq<nat>, k: nat)
    ensures MissingUpTo(index, k, 0) == []
  {}

  /** The blocks of a string in a row are the string. */
  lemma PrimariesInRow(data: Bytes, k: nat)
    requires k > 0 && Lack(|data|, k) <= 1
    ensures Concat(Primaries(data, k), k) == data
  {
    PrimariesUpTo(data, k, k);
  }

  lemma {:induction false} PrimariesUpTo(data: Bytes, k: nat, i: nat)
    requires 0 < k && i <= k && Lack(|data|, k) <= 1
    ensures 0 <= i * BlockSize(|data|, k)
    ensures Concat(Primaries(data, k), i) ==
      if i * BlockSize(|data|, k) <= |data| then data[..i * BlockSize(|data|, k)] else data
  {
    var blk := BlockSize(|data|, k);
    if i > 0 {
      PrimariesUpTo(data, k, i - 1);
      PrimaryStarts(data, k, i - 1);
      assert i * blk == (i - 1) * blk + blk;
    }
  }

  /** With block 0 in hand, the pieces are those of the string, but the last one may end in a zero. */
  lemma PiecesComplete(blocks: seq<Bytes>, have: seq<bool>, data: Bytes, k: nat, n: nat)
    requires 0 < k <= n && Lack(|data|, k) <= 1 && Arrived(blocks, have, data, k, n)
    ensures Concat(Pieces(blocks, have, Split(Padded(data, k), k, BlockSize(|data|, k)), k), k) ==
      if have[k - 1] then data else Padded(data, k)
  {
    hide CodeByte, Padded, Terminated, BlockSize, Lack, Arrived, Concat, Primaries, Pieces, Split;
    ArrivedBlocks(blocks, have, data, k, n);
    var split := Split(Padded(data, k), k, BlockSize(|data|, k));
    var pieces := Pieces(blocks, have, split, k);
    forall i | 0 <= i < k
      ensures have[i] ==> pieces[i] == Primaries(data, k)[i]
      ensures !have[i] ==> pieces[i] == split[i]
      ensures i < k - 1 ==> Primaries(data, k)[i] == split[i]
    {
      PrimaryPiece(blocks, have, data, k, n, i);
    }
    PrimariesInRow(data, k);
    if have[k - 1] {
      ConcatEqual(pieces, Primaries(data, k), k);
    } else {
      ConcatEqual(pieces, split, k);
    }
  }

  lemma PrimaryPiece(blocks: seq<Bytes>, have: seq<bool>, data: Bytes, k: nat, n: nat, i: nat)
    requires i < k <= n && Lack(|data|, k) <= 1 && Arrived(blocks, have, data, k, n)
    ensures have[i] ==> blocks[i] == Primaries(data, k)[i]
    ensures i < k - 1 ==> Primaries(data, k)[i] == Split(Padded(data, k), k, BlockSize(|data|, k))[i]
  {
    hide CodeByte, Padded, Primaries, Split;
    var blk := BlockSize(|data|, k);
    var split := Split(Padded(data, k), k, blk);
    PrimaryCompleted(data, k, i);
    if i < k - 1 {
      TerminatedFull(Primaries(data, k)[i]);
    }
    if have[i] {
      forall pos | 0 <= pos < |blocks[i]|
        ensures blocks[i][pos] == Primaries(data, k)[i][pos]
      {
        PrimaryByte(split, i, pos);
        assert Terminated(blocks[i])[pos] == Terminated(Primaries(data, k)[i])[..blk][pos];
      }
    }
  }

  /** Pieces no longer than those of another row, and a shorter first one. */
  lemma {:induction false} ConcatShorter(a: seq<Bytes>, b: seq<Bytes>, n: nat)
    requires 0 < n <= |a| && n <= |b| && forall i :: 0 <= i < n ==> |a[i]| <= |b[i]|
    ensures |Concat(a, n)| + |b[0]| - |a[0]| <= |Concat(b, n)|
  {
    if n > 1 {
      ConcatShorter(a, b, n - 1);
    } else {
      assert Concat(a, 0) == Concat(b, 0) == [];
    }
  }

  /** Without block 0 every rebuilt piece is empty, and the result is too short. */
  lemma PiecesShort(blocks: seq<Bytes>, have: seq<bool>, rebuilt: seq<Bytes>, data: Bytes, k: nat, n: nat)
    requires 0 < k <= n && |rebuilt| == k && Lack(|data|, k) <= 1 && Arrived(blocks, have, data, k, n) && !have[0]
    requires forall i :: 0 <= i < k ==> rebuilt[i] == []
    ensures Concat(Pieces(blocks, have, rebuilt, k), k) == data <==> data == []
  {
    hide CodeByte, Padded, Terminated, Split, Concat;
    var p := Pieces(blocks, have, rebuilt, k);
    LackFits(|data|, k);
    PrimariesInRow(data, k);
    forall i | 0 <= i < k
      ensures |p[i]| <= |Primaries(data, k)[i]| == BlockLength(|data|, k, i)
    {
      PrimaryCompleted(data, k, i);
    }
    ConcatShorter(p, Primaries(data, k), k);
  }

  lemma PiecesComeBack(blocks: seq<Bytes>, have: seq<bool>, rebuilt: seq<Bytes>, data: Bytes, k: nat, n: nat)
    requires 0 < k <= n && |rebuilt| == k && Lack(|data|, k) <= 1 && Arrived(blocks, have, data, k, n)
    requires |blocks| == |have| == n
    requires if have[0] then rebuilt == Split(Padded(data, k), k, BlockSize(|data|, k))
      else forall i :: 0 <= i < k ==> rebuilt[i] == []
    ensures Concat(Pieces(blocks, have, rebuilt, k), k) == data <==> ComesBack(have[0], have[k - 1], data, k)
  {
    hide CodeByte, Terminated, Arrived, Concat, Pieces, Split, BlockSize, Padded;
    if have[0] {
      PiecesComplete(blocks, have, data, k, n);
      LackFits(|data|, k);
    } else {
      PiecesShort(blocks, have, rebuilt, data, k, n);
    }
  }

  lemma ReceivedBlocks(received: seq<Bytes>, blocks: seq<Bytes>, have: seq<bool>, index: seq<nat>, k: nat, r: nat,
      expected: seq<Bytes>, sz: nat)
    requires ChosenUpTo(index, have, k, r, k) && |blocks| == |have| && |received| == k == |expected|
    requires forall i :: 0 <= i < |have| && have[i] ==> sz <= |blocks[i]| + 1
    requires forall i :: 0 <= i < k ==> received[i] == Terminated(blocks[index[i]])[..sz]
    requires forall j :: 0 <= j < k ==> |expected[j]| == sz
    requires forall i, pos :: 0 <= i < |have| && 0 <= pos < sz && have[i] ==>
      Terminated(blocks[i])[pos] == CodeByte(expected, i, pos)
    ensures Received(received, expected, index, sz)
    ensures forall i :: 0 <= i < k ==> sz <= |received[i]|
  {
    hide CodeByte;
  }

  class RSDecoder {
    const t: Tables
    const fec: Fec
    const k: nat
    const n: nat
    var decodedData: Bytes

    ghost predicate Valid()
      reads t.gfExp, t.inverse, t.gfMulTable, fec.encMatrix
    {
      t.Valid() && fec.Valid() && fec.k == k && fec.n == n && 0 < k <= n <= 256 && k <= 255
    }

    constructor (t: Tables, k: nat, n: nat)
      requires t.Valid() && 0 < k <= n <= 256 && k <= 255
      ensures Valid() && this.t == t && this.k == k && this.n == n && decodedData == []
    {
      this.t, this.k, this.n := t, k, n;
      fec := new Fec(t, k, n);
      decodedData := [];
    }

    /** Chooses k blocks and rebuilds the missing primaries in fresh buffers. */
    method Recover(blocks: seq<Bytes>, have: seq<bool>, lostNum: nat, blkSize: nat, ghost expected: seq<Bytes>)
        returns (out: seq<array<Gf>>, index: seq<nat>)
      requires Valid() && |blocks| == |have| == n && |expected| == k
      requires Present(have, 0, n) >= k && lostNum == n - Present(have, 0, n)
      requires forall j :: 0 <= j < k ==> |expected[j]| == blkSize
      requires forall i :: 0 <= i < n && have[i] ==> blkSize <= |blocks[i]| + 1
      requires forall i, pos :: 0 <= i < n && 0 <= pos < blkSize && have[i] ==>
        Terminated(blocks[i])[pos] == CodeByte(expected, i, pos)
      ensures |index| == k && forall j :: 0 <= j < k ==> (index[j] >= k <==> !have[j])
      ensures Rebuilt(Rows(out), MissingUpTo(index, k, k), expected, blkSize)
      ensures forall i :: 0 <= i < |out| ==> out[i].Length == blkSize
    {
      hide Tables.Valid, Fec.Valid, Rebuilt, MissingUpTo, CodeByte, Survivors, ChosenUpTo, Received, OutputBuffers,
        Present;
      index := ChooseBlocks(have, k);
      ghost var r: nat :| ChosenUpTo(index, have, k, r, k);
      ChosenSurvive(index, have, k, r);
      MissingCount(index, have, k, k);
      PresentSplit(have, 0, k, n);
      assert |MissingUpTo(index, k, k)| <= lostNum;
      var inRecovery := Buffers(seq(k, i requires 0 <= i < k => Terminated(blocks[index[i]])[..blkSize]));
      ReceivedBlocks(Rows(inRecovery), blocks, have, index, k, r, expected, blkSize);
      out := AllocateMatrix(lostNum, blkSize);
      FreshOutputs(t, out, inRecovery, fec.encMatrix, blkSize);
      FecDecode(t, fec, inRecovery, out, index, blkSize, expected);
    }

    /** Concatenates present primaries and rebuilt blocks in order. */
    method Assemble(blocks: seq<Bytes>, have: seq<bool>, out: seq<array<Gf>>, index: seq<nat>, blkSize: nat,
        ghost expected: seq<Bytes>)
      requires k <= |blocks| && k <= |have| && |index| == k == |expected|
      requires forall j :: 0 <= j < k ==> (index[j] >= k <==> !have[j])
      requires Rebuilt(Rows(out), MissingUpTo(index, k, k), expected, blkSize)
      requires forall i :: 0 <= i < |out| ==> out[i].Length == blkSize
      modifies this
      ensures decodedData == old(decodedData) + Concat(Pieces(blocks, have, expected, k), k)
    {
      hide MissingUpTo, Rebuilt, Rows, Pieces, Concat;
      ghost var pieces := Pieces(blocks, have, expected, k);
      ghost var before := decodedData;
      var r := 0;
      var i := 0;
      MissingEmpty(index, k);
      ConcatNone(pieces);
      while i < k
        invariant 0 <= i <= k && r == |MissingUpTo(index, k, i)|
        invariant decodedData == before + Concat(pieces, i)
      {
        ConcatNext(pieces, i);
        if have[i] {
          MissingSame(index, k, i);
          decodedData := decodedData + blocks[i];
        } else {
          MissingAt(index, k, i);
          RebuiltAt(out, MissingUpTo(index, k, k), expected, blkSize, r);
          decodedData := decodedData + out[r][..];
          r := r + 1;
        }
        i := i + 1;
      }
    }

    /**
     Rebuilds the string, behind those of earlier calls. The block size is read from block 0, and a
     rebuilt block is a full one. So what is added is the original string exactly when block 0 is
     present, and the last primary block too if it is short, or when the string is empty.
     */
    method RsDecode(blocks: seq<Bytes>, have: seq<bool>, lostNum: nat, ghost data: Bytes) returns (r: Bytes)
      requires Valid() && Lack(|data|, k) <= 1 && Arrived(blocks, have, data, k, n)
      requires Present(have, 0, n) >= k && lostNum == n - Present(have, 0, n)
      modifies this
      ensures r == decodedData && old(decodedData) <= r
      ensures r[|old(decodedData)|..] == data <==> ComesBack(have[0], have[k - 1], data, k)
    {
      hide Tables.Valid, Fec.Valid, Rebuilt, MissingUpTo, CodeByte, Present, Pieces;
      hide Arrived, Terminated, BlockSize, Lack, Concat, Padded, Split, ComesBack;
      ArrivedBlocks(blocks, have, data, k, n);
      var blkSize := |blocks[0]|;
      ghost var expected := if have[0] then Split(Padded(data, k), k, blkSize) else seq(k, i => []);
      var out, index := Recover(blocks, have, lostNum, blkSize, expected);
      Assemble(blocks, have, out, index, blkSize, expected);
      PiecesComeBack(blocks, have, expected, data, k, n);
      r := decodedData;
    }
  }

  /** Decoding gives the string back: by whether block 0 and the last primary block are present. */
  predicate ComesBack(first: bool, last: bool, data: Bytes, k: nat)
    requires k > 0
  {
    (first && (last || Lack(|data|, k) == 0)) || data == []
  }

  /** What is left of the encoded blocks. */
  function Kept(word: seq<Bytes>, have: seq<bool>): (blocks: seq<Bytes>)
    requires |word| == |have|
    ensures |blocks| == |word| && forall i :: 0 <= i < |blocks| ==> blocks[i] == if have[i] then word[i] else []
  {
    seq(|word|, i requires 0 <= i < |word| => if have[i] then word[i] else [])
  }

  /** Encode, lose blocks, decode: whichever k blocks are left, the string comes back under that condition. */
  method RoundTrip(t: Tables, k: nat, n: nat, data: Bytes, have: seq<bool>) returns (r: Bytes)
    requires t.Valid() && 0 < k <= n <= 256 && k <= 255 && Lack(|data|, k) <= 1
    requires |have| == n && Present(have, 0, n) >= k
    ensures r == data <==> ComesBack(have[0], have[k - 1], data, k)
  {
    hide Tables.Valid, Fec.Valid, Present, IsCodeWord, Arrived, Split, Kept, IsEncoding, Lack, ComesBack;
    var encoder := new RSEncoder(t, k, n);
    var word := encoder.RsEncode(data);
    EncodingLength(word, data, k, n);
    var blocks := Kept(word, have);
    CodeWordArrives(word, blocks, have, data, k, n);
    var lost := n - Present(have, 0, n);
    var decoder := new RSDecoder(t, k, n);
    r := decoder.RsDecode(blocks, have, lost, data);
  }

  lemma EncodingLength(word: seq<Bytes>, data: Bytes, k: nat, n: nat)
    requires k > 0 && Lack(|data|, k) <= 1 && IsEncoding(word, data, k, n)
    ensures |word| == n
  {}

  /** Blocks belong to one string. */
  lemma EncodingUnique(word: seq<Bytes>, a: Bytes, b: Bytes, k: nat, n: nat)
    requires 0 < k <= n && Lack(|a|, k) <= 1 && Lack(|b|, k) <= 1
    requires IsEncoding(word, a, k, n) && IsEncoding(word, b, k, n)
    ensures a == b
  {
    hide CodeByte, Split, Padded;
    LackFits(|a|, k);
    LackFits(|b|, k);
    var blk := BlockSize(|a|, k);
    assert |word[0]| == BlockLength(|a|, k, 0) == BlockLength(|b|, k, 0);
    assert |word[k - 1]| == BlockLength(|a|, k, k - 1) == BlockLength(|b|, k, k - 1);
    assert BlockSize(|b|, k) == blk && |a| == |b|;
    var x, y := Split(Padded(a, k), k, blk), Split(Padded(b, k), k, blk);
    forall i | 0 <= i < k
      ensures x[i] == y[i]
    {
      forall pos | 0 <= pos < blk
        ensures x[i][pos] == y[i][pos]
      {
        PrimaryByte(x, i, pos);
        PrimaryByte(y, i, pos);
      }
    }
    ConcatEqual(x, y, k);
    assert a == Padded(a, k)[..|a|] && b == Padded(b, k)[..|b|];
  }

  /**
   An encoder used for two strings: the first n blocks of the second result, which are those a
   proposer sends out, are the blocks of the second string only if it is the first one.
   */
  method EncodeTwice(t: Tables, k: nat, n: nat, a: Bytes, b: Bytes) returns (r: seq<Bytes>)
    requires t.Valid() && 0 < k <= n <= 256 && k <= 255 && Lack(|a|, k) <= 1 && Lack(|b|, k) <= 1
    ensures |r| == 2 * n
    ensures IsEncoding(r[..n], b, k, n) <==> a == b
  {
    hide Tables.Valid, Fec.Valid, IsEncoding, Lack;
    var encoder := new RSEncoder(t, k, n);
    var first := encoder.RsEncode(a);
    EncodingLength(first, a, k, n);
    r := encoder.RsEncode(b);
    EncodingLength(r[n..], b, k, n);
    assert r[..n] == first;
    if IsEncoding(r[..n], b, k, n) {
      EncodingUnique(first, a, b, k, n);
    }
  }
}
