/** Repeating-key XOR breaker, structural part (set1/challenge6.py).

    The ciphertext arrives as a hex string. It is split into two-character
    byte strings, transposed into `keylen` columns by stride slicing, each
    column is broken as single-byte XOR, and the decrypted columns are zipped
    back together. Every key length from 2 to `max_len` is tried and the best
    scoring attempt wins. The single-byte breaker and the English scorer of
    challenge3 are parameters. */
module RepeatingKeyXor {

  import opened Arithmetic

  datatype Option<T> = None | Some(value: T)

  /** One guess: total score, plaintext and the key length it assumed. */
  datatype Attempt = Attempt(score: int, plaintext: string, keylen: nat)

  /** challenge3's `decrypt`: breaks a hex column as single-byte XOR. */
  type Decryptor = string -> string

  /** challenge3's `score`: how English-like a plaintext looks. */
  type Scorer = string -> int

  /** Default of the `max_len` parameter. */
  const DefaultMaxLen: int := 40

  /** The single-byte breaker gives one character per byte, that is per two
      hex digits. */
  ghost predicate OneCharPerByte(decrypt: Decryptor)
  {
    forall h: string :: |decrypt(h)| == |h| / 2
  }

  /** Concatenation of a list of strings (`''.join`). */
  function Join(ss: seq<string>): string
  {
    if ss == [] then [] else ss[0] + Join(ss[1..])
  }

  predicate AllPairs(ss: seq<string>)
  {
    forall i :: 0 <= i < |ss| ==> |ss[i]| == 2
  }

  lemma {:induction false} JoinPairsLength(ss: seq<string>)
    requires AllPairs(ss)
    ensures |Join(ss)| == 2 * |ss|
    decreases |ss|
  {
    if ss != [] {
      JoinPairsLength(ss[1..]);
    }
  }

  // ---------------------------------------------------------------------
  // Splitting the hex string into bytes

  /** Left zero padding to an even number of hex digits. */
  function PadHex(s: string): string
  {
    if |s| % 2 == 1 then "0" + s else s
  }

  /** `[s[i:i+2] for i in range(0, len(s), 2)]` on an even-length string. */
  function BytePairs(t: string): (pairs: seq<string>)
    requires |t| % 2 == 0
    ensures |pairs| == |t| / 2 && AllPairs(pairs)
  {
    seq(|t| / 2, i requires 0 <= i < |t| / 2 => t[2 * i..2 * i + 2])
  }

  /** `ct_split` for the hex string `s`. */
  function HexPairs(s: string): (pairs: seq<string>)
    ensures |pairs| == (|s| + 1) / 2 && AllPairs(pairs)
  {
    BytePairs(PadHex(s))
  }

  lemma {:induction false} JoinBytePairs(t: string)
    requires |t| % 2 == 0
    ensures Join(BytePairs(t)) == t
    decreases |t|
  {
    if |t| > 0 {
      var pairs := BytePairs(t);
      assert pairs[0] == t[..2];
      assert pairs[1..] == BytePairs(t[2..]) by {
        forall i | 0 <= i < |t| / 2 - 1
          ensures pairs[1..][i] == BytePairs(t[2..])[i]
        {
          assert t[2..][2 * i..2 * i + 2] == t[2 * (i + 1)..2 * (i + 1) + 2];
        }
      }
      JoinBytePairs(t[2..]);
      assert t == t[..2] + t[2..];
    }
  }

  /** `ct_split` has one two-digit entry per byte of the left-zero-padded
      hex string, and joining it gives that padded string back. */
  lemma HexPairsSpec(s: string)
    ensures |HexPairs(s)| == (|s| + 1) / 2
    ensures AllPairs(HexPairs(s))
    ensures Join(HexPairs(s)) == if |s| % 2 == 1 then "0" + s else s
  {
    JoinBytePairs(PadHex(s));
  }

  // ---------------------------------------------------------------------
  // Transposition into columns

  /** `xs[i::k]`: every `k`-th element starting at index `i`. */
  function Stride<T>(xs: seq<T>, i: nat, k: nat): (col: seq<T>)
    requires k >= 1
    ensures |col| == ColumnLength(|xs|, i, k)
    decreases |xs| - i
  {
    if i >= |xs| then [] else [xs[i]] + Stride(xs, i + k, k)
  }

  /** Length of column `j` of `k` columns over `n` elements. */
  function ColumnLength(n: nat, j: nat, k: nat): nat
    requires k >= 1
    decreases n - j
  {
    if j >= n then 0 else 1 + ColumnLength(n, j + k, k)
  }

  /** The `k` columns `[xs[j::k] for j in range(k)]`. */
  function Transpose<T>(xs: seq<T>, k: nat): (cols: seq<seq<T>>)
    requires k >= 1
    ensures |cols| == k
    ensures forall j :: 0 <= j < k ==> |cols[j]| == ColumnLength(|xs|, j, k)
  {
    seq(k, j requires 0 <= j < k => Stride(xs, j, k))
  }

  /** Column `j` has an `m`-th entry exactly when `j + m*k` is an index. */
  lemma {:induction false} ColumnLengthAt(n: nat, j: nat, k: nat, m: nat)
    requires k >= 1
    ensures m < ColumnLength(n, j, k) <==> j + m * k < n
    decreases m
  {
    if j >= n {
      assert m * k >= 0;
    } else if m > 0 {
      ColumnLengthAt(n, j + k, k, m - 1);
      assert (j + k) + (m - 1) * k == j + m * k;
    }
  }

  lemma {:induction false} StrideAt<T>(xs: seq<T>, j: nat, k: nat, m: nat)
    requires k >= 1 && m < |Stride(xs, j, k)|
    ensures j + m * k < |xs| && Stride(xs, j, k)[m] == xs[j + m * k]
    decreases m
  {
    if m > 0 {
      StrideAt(xs, j + k, k, m - 1);
      assert (j + k) + (m - 1) * k == j + m * k;
    }
  }

  /** Column `j` holds exactly the elements whose index is `j` plus a
      multiple of `k`, in their original order. */
  lemma TransposeColumn<T>(xs: seq<T>, k: nat, j: nat, m: nat)
    requires 1 <= k && j < k
    ensures m < |Transpose(xs, k)[j]| <==> j + m * k < |xs|
    ensures m < |Transpose(xs, k)[j]| ==> Transpose(xs, k)[j][m] == xs[j + m * k]
  {
    ColumnLengthAt(|xs|, j, k, m);
    if m < |Transpose(xs, k)[j]| {
      StrideAt(xs, j, k, m);
    }
  }

  /** Later columns are never longer. */
  lemma ColumnLengthNonIncreasing(n: nat, j: nat, j': nat, k: nat)
    requires k >= 1 && j <= j'
    ensures ColumnLength(n, j', k) <= ColumnLength(n, j, k)
  {
    var len' := ColumnLength(n, j', k);
    if len' > 0 {
      ColumnLengthAt(n, j', k, len' - 1);
      ColumnLengthAt(n, j, k, len' - 1);
    }
  }

  /** Columns less than `k` apart differ in length by at most one. */
  lemma ColumnLengthBalanced(n: nat, j: nat, j': nat, k: nat)
    requires k >= 1 && j <= j' <= j + k
    ensures ColumnLength(n, j, k) <= ColumnLength(n, j', k) + 1
  {
    var len := ColumnLength(n, j, k);
    if len >= 2 {
      ColumnLengthAt(n, j, k, len - 1);
      ColumnLengthAt(n, j', k, len - 2);
      assert j + (len - 1) * k == j + k + (len - 2) * k;
    }
  }

  /** Sum of the lengths of columns `0 .. c-1`. */
  function ColumnLengthSum(n: nat, k: nat, c: nat): nat
    requires k >= 1
  {
    if c == 0 then 0 else ColumnLengthSum(n, k, c - 1) + ColumnLength(n, c - 1, k)
  }

  lemma {:induction false} ColumnLengthShift(n: nat, j: nat, k: nat)
    requires 1 <= k <= n
    ensures ColumnLength(n, j + k, k) == ColumnLength(n - k, j, k)
    decreases n - j
  {
    if j + k < n {
      ColumnLengthShift(n, j + k, k);
    }
  }

  lemma {:induction false} ColumnLengthSumStep(n: nat, k: nat, c: nat)
    requires 1 <= k <= n && c <= k
    ensures ColumnLengthSum(n, k, c) == c + ColumnLengthSum(n - k, k, c)
  {
    if c > 0 {
      ColumnLengthSumStep(n, k, c - 1);
      ColumnLengthShift(n, c - 1, k);
    }
  }

  lemma {:induction false} ColumnLengthSumShort(n: nat, k: nat, c: nat)
    requires n < k && c <= k
    ensures ColumnLengthSum(n, k, c) == if c <= n then c else n
  {
    if c > 0 {
      ColumnLengthSumShort(n, k, c - 1);
      assert ColumnLength(n, c - 1 + k, k) == 0;
    }
  }

  /** The `k` column lengths add up to the number of elements. */
  lemma {:induction false} ColumnLengthsSum(n: nat, k: nat)
    requires k >= 1
    ensures ColumnLengthSum(n, k, k) == n
    decreases n
  {
    if n < k {
      ColumnLengthSumShort(n, k, k);
    } else {
      ColumnLengthSumStep(n, k, k);
      ColumnLengthsSum(n - k, k);
    }
  }

  // ---------------------------------------------------------------------
  // Zipping the columns back

  /** Row `i` of the zip from column `j` on: `segs[j'][i]` for every
      `j' >= j` whose column is long enough. */
  function Row<T>(segs: seq<seq<T>>, i: nat, j: nat): seq<T>
    decreases |segs| - j
  {
    if j >= |segs| then []
    else (if i < |segs[j]| then [segs[j][i]] else []) + Row(segs, i, j + 1)
  }

  function ZipFrom<T>(segs: seq<seq<T>>, i: nat): seq<T>
    requires |segs| >= 1
    decreases |segs[0]| - i
  {
    if i >= |segs[0]| then [] else Row(segs, i, 0) + ZipFrom(segs, i + 1)
  }

  /** The zip comprehension: rows `i` over the length of segment 0, and in
      each row the segments that have an `i`-th character, in order. */
  function Zip<T>(segs: seq<seq<T>>): seq<T>
    requires |segs| >= 1
  {
    ZipFrom(segs, 0)
  }

  /** `segs` has the column lengths of `k` columns over `n` elements. */
  ghost predicate Shaped<T>(segs: seq<seq<T>>, n: nat, k: nat)
  {
    k >= 1 && |segs| == k && forall j :: 0 <= j < k ==> |segs[j]| == ColumnLength(n, j, k)
  }

  /** Number of characters in row `i` of a zip of `k` columns over `n`. */
  function Width(n: nat, k: nat, i: nat): nat
  {
    var base := i * k;
    if base >= n then 0 else if n - base >= k then k else n - base
  }

  lemma {:induction false} RowLength<T>(segs: seq<seq<T>>, n: nat, k: nat, i: nat, j: nat)
    requires Shaped(segs, n, k) && j <= k
    ensures |Row(segs, i, j)| == if j < Width(n, k, i) then Width(n, k, i) - j else 0
    decreases k - j
  {
    if j < k {
      ColumnLengthAt(n, j, k, i);
      RowLength(segs, n, k, i, j + 1);
    }
  }

  lemma {:induction false} RowAt<T>(segs: seq<seq<T>>, n: nat, k: nat, i: nat, j: nat, t: nat)
    requires Shaped(segs, n, k) && j <= k && t < |Row(segs, i, j)|
    ensures j + t < k && i < |segs[j + t]| && Row(segs, i, j)[t] == segs[j + t][i]
    decreases k - j
  {
    RowLength(segs, n, k, i, j);
    ColumnLengthAt(n, j, k, i);
    assert j < k && i < |segs[j]|;
    if t > 0 {
      RowAt(segs, n, k, i, j + 1, t - 1);
      assert Row(segs, i, j)[t] == Row(segs, i, j + 1)[t - 1];
    }
  }

  lemma {:induction false} ZipFromLength<T>(segs: seq<seq<T>>, n: nat, k: nat, i: nat)
    requires Shaped(segs, n, k)
    ensures |ZipFrom(segs, i)| == if i * k < n then n - i * k else 0
    decreases |segs[0]| - i
  {
    ColumnLengthAt(n, 0, k, i);
    if i < |segs[0]| {
      RowLength(segs, n, k, i, 0);
      ZipFromLength(segs, n, k, i + 1);
      assert (i + 1) * k == i * k + k;
    }
  }

  lemma {:induction false} ZipFromAt<T>(segs: seq<seq<T>>, n: nat, k: nat, i: nat, i': nat, j: nat)
    requires Shaped(segs, n, k) && i <= i' && j < k && i' < |segs[j]|
    ensures i' * k + j - i * k < |ZipFrom(segs, i)|
    ensures ZipFrom(segs, i)[i' * k + j - i * k] == segs[j][i']
    decreases i' - i
  {
    var base, pos := i * k, i' * k;
    ColumnLengthAt(n, j, k, i');
    assert j + pos < n;
    ColumnLengthNonIncreasing(n, 0, j, k);
    assert i < |segs[0]|;
    RowLength(segs, n, k, i, 0);
    var row, rest := Row(segs, i, 0), ZipFrom(segs, i + 1);
    assert ZipFrom(segs, i) == row + rest;
    if i' == i {
      assert |row| > j;
      RowAt(segs, n, k, i, 0, j);
      assert pos + j - base == j;
    } else {
      MulMonotone(i + 1, i', k);
      assert (i + 1) * k == base + k;
      assert |row| == k;
      ZipFromAt(segs, n, k, i + 1, i', j);
      assert pos + j - (i + 1) * k == pos + j - base - k;
    }
  }

  /** Position of character `i` of segment `j` in a zip of `k` segments. */
  function ZipIndex(i: nat, j: nat, k: nat): nat
  {
    i * k + j
  }

  /** Character `i` of segment `j` lands at position `i*k + j`, and nothing
      is dropped when the segments have column lengths. */
  lemma ZipPlacement<T>(segs: seq<seq<T>>, n: nat, k: nat)
    requires Shaped(segs, n, k)
    ensures |Zip(segs)| == n
    ensures forall i, j :: 0 <= j < k && 0 <= i < |segs[j]| ==>
      ZipIndex(i, j, k) < |Zip(segs)| && Zip(segs)[ZipIndex(i, j, k)] == segs[j][i]
  {
    ZipFromLength(segs, n, k, 0);
    forall i, j | 0 <= j < k && 0 <= i < |segs[j]|
      ensures ZipIndex(i, j, k) < |Zip(segs)| && Zip(segs)[ZipIndex(i, j, k)] == segs[j][i]
    {
      ZipFromAt(segs, n, k, 0, i, j);
      assert i * k + j - 0 * k == i * k + j;
    }
  }

  /** Zipping the untransformed columns returns the original sequence. */
  lemma ZipTranspose<T>(xs: seq<T>, k: nat)
    requires k >= 1
    ensures Zip(Transpose(xs, k)) == xs
  {
    var cols := Transpose(xs, k);
    ZipPlacement(cols, |xs|, k);
    forall m | 0 <= m < |xs|
      ensures Zip(cols)[m] == xs[m]
    {
      var i, j := m / k, m % k;
      DivMod(m, k);
      TransposeColumn(xs, k, j, i);
      assert ZipIndex(i, j, k) == m;
    }
  }

  // ---------------------------------------------------------------------
  // One key length

  lemma StrideAllPairs(xs: seq<string>, j: nat, k: nat)
    requires k >= 1 && AllPairs(xs)
    ensures AllPairs(Stride(xs, j, k))
  {
    forall m | 0 <= m < |Stride(xs, j, k)|
      ensures |Stride(xs, j, k)[m]| == 2
    {
      StrideAt(xs, j, k, m);
    }
  }

  lemma ColumnJoinLengths(ctSplit: seq<string>, keylen: nat)
    requires keylen >= 1
    ensures AllPairs(ctSplit) ==> forall j :: 0 <= j < keylen ==>
      |Join(Stride(ctSplit, j, keylen))| == 2 * ColumnLength(|ctSplit|, j, keylen)
  {
    if AllPairs(ctSplit) {
      forall j | 0 <= j < keylen
        ensures |Join(Stride(ctSplit, j, keylen))| == 2 * ColumnLength(|ctSplit|, j, keylen)
      {
        StrideAllPairs(ctSplit, j, keylen);
        JoinPairsLength(Stride(ctSplit, j, keylen));
      }
    }
  }

  /** The hex columns `''.join(ct_split[i::keylen])`: with two hex digits per
      byte, column `j` has two digits for each byte of stride column `j`. */
  function Columns(ctSplit: seq<string>, keylen: nat): (cols: seq<string>)
    requires keylen >= 1
    ensures |cols| == keylen
    ensures AllPairs(ctSplit) ==> forall j :: 0 <= j < keylen ==>
      |cols[j]| == 2 * ColumnLength(|ctSplit|, j, keylen)
  {
    ColumnJoinLengths(ctSplit, keylen);
    seq(keylen, j requires 0 <= j < keylen => Join(Stride(ctSplit, j, keylen)))
  }

  /** `pt_segments`: the breaker mapped over the columns. With a breaker that
      gives one character per byte, the segments have the column lengths. */
  function Segments(ctSplit: seq<string>, keylen: nat, decrypt: Decryptor): (segs: seq<string>)
    requires keylen >= 1
    ensures |segs| == keylen
    ensures AllPairs(ctSplit) && OneCharPerByte(decrypt) ==>
      forall j :: 0 <= j < keylen ==> |segs[j]| == ColumnLength(|ctSplit|, j, keylen)
  {
    var cols := Columns(ctSplit, keylen);
    seq(keylen, j requires 0 <= j < keylen => decrypt(cols[j]))
  }

  /** `sum([score(seg) for seg in segs])`. */
  function TotalScore(segs: seq<string>, score: Scorer): int
  {
    if segs == [] then 0 else score(segs[0]) + TotalScore(segs[1..], score)
  }

  /** `sum` adds left to right: the total of a list extended by one segment
      is the old total plus that segment's score. */
  lemma {:induction false} TotalScoreAppend(segs: seq<string>, seg: string, score: Scorer)
    ensures TotalScore(segs + [seg], score) == TotalScore(segs, score) + score(seg)
    decreases |segs|
  {
    if segs != [] {
      assert (segs + [seg])[1..] == segs[1..] + [seg];
      TotalScoreAppend(segs[1..], seg, score);
    }
  }

  /** Character `p` of the zip is character `p / k` of segment `p % k`. */
  lemma ZipAt<T>(segs: seq<seq<T>>, n: nat, k: nat, p: nat)
    requires Shaped(segs, n, k) && p < n
    ensures p / k < |segs[p % k]| && p < |Zip(segs)| && Zip(segs)[p] == segs[p % k][p / k]
  {
    var i, j := p / k, p % k;
    DivMod(p, k);
    ColumnLengthAt(n, j, k, i);
    ZipFromAt(segs, n, k, 0, i, j);
    assert i * k + j - 0 * k == p;
  }

  /** Character `p` of `zipped` is character `p / k` of segment `p % k`. */
  ghost predicate LaidOut<T>(zipped: seq<T>, segs: seq<seq<T>>, k: nat)
    requires k >= 1 && |segs| == k
  {
    forall p :: 0 <= p < |zipped| ==> p / k < |segs[p % k]| && zipped[p] == segs[p % k][p / k]
  }

  /** Reading the zip position by position: it has `n` characters, and
      character `p` comes from segment `p % k` at index `p / k`. */
  lemma ZipLayout<T>(segs: seq<seq<T>>, n: nat, k: nat)
    requires Shaped(segs, n, k)
    ensures |Zip(segs)| == n && LaidOut(Zip(segs), segs, k)
  {
    ZipFromLength(segs, n, k, 0);
    forall p | 0 <= p < n
      ensures p / k < |segs[p % k]| && Zip(segs)[p] == segs[p % k][p / k]
    {
      ZipAt(segs, n, k, p);
    }
  }

  /** `ZipLayout` for the segments of one key length. */
  lemma SegmentsZipLayout(ctSplit: seq<string>, keylen: nat, decrypt: Decryptor)
    requires keylen >= 1
    ensures AllPairs(ctSplit) && OneCharPerByte(decrypt) ==>
      |Zip(Segments(ctSplit, keylen, decrypt))| == |ctSplit| &&
      LaidOut(Zip(Segments(ctSplit, keylen, decrypt)), Segments(ctSplit, keylen, decrypt), keylen)
  {
    if AllPairs(ctSplit) && OneCharPerByte(decrypt) {
      SegmentsShaped(ctSplit, keylen, decrypt);
      ZipLayout(Segments(ctSplit, keylen, decrypt), |ctSplit|, keylen);
    }
  }

  lemma SegmentsShaped(ctSplit: seq<string>, keylen: nat, decrypt: Decryptor)
    requires keylen >= 1 && AllPairs(ctSplit) && OneCharPerByte(decrypt)
    ensures Shaped(Segments(ctSplit, keylen, decrypt), |ctSplit|, keylen)
  {
  }

  /** `fixed_len_repeated_key_xor_decrypt(keylen)`. */
  function FixedLenDecrypt(ctSplit: seq<string>, keylen: nat, decrypt: Decryptor, score: Scorer): (a: Attempt)
    requires keylen >= 1
    ensures a.keylen == keylen
    ensures a.score == TotalScore(Segments(ctSplit, keylen, decrypt), score)
    ensures AllPairs(ctSplit) && OneCharPerByte(decrypt) ==>
      |a.plaintext| == |ctSplit| && LaidOut(a.plaintext, Segments(ctSplit, keylen, decrypt), keylen)
  {
    var segs := Segments(ctSplit, keylen, decrypt);
    SegmentsZipLayout(ctSplit, keylen, decrypt);
    Attempt(TotalScore(segs, score), Zip(segs), keylen)
  }

  /** With a breaker that gives one character per byte, the attempt's
      plaintext has one character per ciphertext byte, and character `i` of
      the segment of column `j` is at position `i*keylen + j`. */
  lemma AttemptLayout(ctSplit: seq<string>, keylen: nat, decrypt: Decryptor, score: Scorer)
    requires keylen >= 1 && AllPairs(ctSplit) && OneCharPerByte(decrypt)
    ensures var segs := Segments(ctSplit, keylen, decrypt);
      forall j :: 0 <= j < keylen ==> |segs[j]| == |Stride(ctSplit, j, keylen)|
    ensures |FixedLenDecrypt(ctSplit, keylen, decrypt, score).plaintext| == |ctSplit|
    ensures var segs := Segments(ctSplit, keylen, decrypt);
      var pt := FixedLenDecrypt(ctSplit, keylen, decrypt, score).plaintext;
      forall i, j :: 0 <= j < keylen && 0 <= i < |segs[j]| ==>
        ZipIndex(i, j, keylen) < |pt| && pt[ZipIndex(i, j, keylen)] == segs[j][i]
  {
    var segs := Segments(ctSplit, keylen, decrypt);
    ZipPlacement(segs, |ctSplit|, keylen);
    assert FixedLenDecrypt(ctSplit, keylen, decrypt, score).plaintext == Zip(segs);
  }

  // ---------------------------------------------------------------------
  // Choosing the best key length

  /** Index of `sorted(attempts, key=score, reverse=True)[0]`: the sort is
      stable under `reverse=True`, so this is the earliest attempt of
      maximal score. */
  function FirstBest(attempts: seq<Attempt>): (b: nat)
    requires |attempts| > 0
    ensures b < |attempts|
    ensures forall a :: 0 <= a < |attempts| ==> attempts[a].score <= attempts[b].score
    ensures forall a :: 0 <= a < b ==> attempts[a].score < attempts[b].score
    decreases |attempts|
  {
    if |attempts| == 1 then 0
    else
      var b := FirstBest(attempts[..|attempts| - 1]);
      if attempts[|attempts| - 1].score > attempts[b].score then |attempts| - 1 else b
  }

  /** The two properties of `FirstBest` pick out a single index. */
  lemma FirstBestUnique(attempts: seq<Attempt>, b: nat)
    requires b < |attempts|
    requires forall a :: 0 <= a < |attempts| ==> attempts[a].score <= attempts[b].score
    requires forall a :: 0 <= a < b ==> attempts[a].score < attempts[b].score
    ensures b == FirstBest(attempts)
  {
  }

  /** `repeated_key_xor_decrypt(s, max_len)`: one attempt per key length
      2..max_len, and the best of them. An empty attempt list makes the
      source's `[0]` fail; that is `None` here. */
  method RepeatedKeyXorDecrypt(s: string, decrypt: Decryptor, score: Scorer, maxLen: int := DefaultMaxLen)
    returns (best: Option<Attempt>)
    ensures best.None? <==> maxLen < 2
    ensures best.Some? ==> 2 <= best.value.keylen <= maxLen
    ensures best.Some? ==> best.value == FixedLenDecrypt(HexPairs(s), best.value.keylen, decrypt, score)
    ensures best.Some? ==> forall keylen :: 2 <= keylen <= maxLen ==>
      FixedLenDecrypt(HexPairs(s), keylen, decrypt, score).score <= best.value.score
    ensures best.Some? ==> forall keylen :: 2 <= keylen < best.value.keylen ==>
      FixedLenDecrypt(HexPairs(s), keylen, decrypt, score).score < best.value.score
  {
    var t := s;
    if |t| % 2 == 1 {
      t := "0" + t;
    }
    var ctSplit := BytePairs(t);
    assert ctSplit == HexPairs(s);

    var attempts: seq<Attempt> := [];
    var keylen := 2;
    while keylen <= maxLen
      invariant 2 <= keylen <= if maxLen >= 2 then maxLen + 1 else 2
      invariant |attempts| == keylen - 2
      invariant forall a :: 0 <= a < |attempts| ==>
        attempts[a] == FixedLenDecrypt(ctSplit, a + 2, decrypt, score)
      decreases maxLen - keylen
    {
      var result := FixedLenDecrypt(ctSplit, keylen, decrypt, score);
      attempts := attempts + [result];
      keylen := keylen + 1;
    }

    if |attempts| == 0 {
      return None;
    }
    var b := FirstBest(attempts);
    best := Some(attempts[b]);
    forall kl | 2 <= kl <= maxLen
      ensures FixedLenDecrypt(ctSplit, kl, decrypt, score) == attempts[kl - 2]
    {
    }
  }
}
