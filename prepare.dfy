/**
  The character-level codec of the corpus preparation step (prepare.py):
  the vocabulary is the distinct characters of the corpus in code-point order,
  `stoi` and `itos` number them by that order, `encode`/`decode` look each
  character or id up, and the corpus is cut at 90% of its length into a
  training prefix and a validation suffix. Reading the corpus and writing the
  binary arrays and the metadata record are left to the caller.
*/
module CharCodec {
  import opened Strings

  // ---------------------------------------------------------------------------
  // Vocabulary: chars = sorted(list(set(data))), vocab_size = len(chars)
  // ---------------------------------------------------------------------------

  predicate StrictlyAscending(cs: seq<char>)
  {
    forall i, j :: 0 <= i < j < |cs| ==> cs[i] < cs[j]
  }

  /** `set(data)`. */
  function CharSet(data: string): set<char>
  {
    set c | c in data
  }

  /** Adds `c` to an ascending run of distinct characters, keeping it ascending and distinct. */
  function InsertChar(cs: seq<char>, c: char): (r: seq<char>)
    requires StrictlyAscending(cs)
    ensures StrictlyAscending(r)
    ensures forall x :: x in r <==> x in cs || x == c
  {
    if cs == [] then [c]
    else if c < cs[0] then
      AscendingHead(cs);
      PrependAscending(c, cs);
      [c] + cs
    else if c == cs[0] then cs
    else
      AscendingHead(cs);
      var tail := InsertChar(cs[1..], c);
      PrependAscending(cs[0], tail);
      [cs[0]] + tail
  }

  /** The head of an ascending run is below everything after it, and the rest is ascending. */
  lemma AscendingHead(cs: seq<char>)
    requires StrictlyAscending(cs) && cs != []
    ensures StrictlyAscending(cs[1..])
    ensures forall x :: x in cs[1..] ==> cs[0] < x
    ensures forall x :: x in cs <==> x == cs[0] || x in cs[1..]
  {
    forall x | x in cs[1..] ensures cs[0] < x {
      var k :| 0 <= k < |cs[1..]| && cs[1..][k] == x;
      assert cs[k + 1] == x;
    }
    forall i, j | 0 <= i < j < |cs[1..]| ensures cs[1..][i] < cs[1..][j] {
      assert cs[1..][i] == cs[i + 1] && cs[1..][j] == cs[j + 1];
    }
    ConsTail(cs);
  }

  /** A character below every element of an ascending run can go in front of it. */
  lemma PrependAscending(h: char, t: seq<char>)
    requires StrictlyAscending(t)
    requires forall x :: x in t ==> h < x
    ensures StrictlyAscending([h] + t)
    ensures forall x :: x in [h] + t <==> x == h || x in t
  {
    var r := [h] + t;
    forall i, j | 0 <= i < j < |r| ensures r[i] < r[j] {
      assert r[j] == t[j - 1];
      if i == 0 {
        assert t[j - 1] in t;
      } else {
        assert r[i] == t[i - 1];
      }
    }
  }

  /**
    `chars`: the characters occurring in `data`, each once, ascending by code
    point. It is built by inserting the characters of `data` one by one.
  */
  function Chars(data: string): (chars: seq<char>)
    ensures StrictlyAscending(chars)
    ensures forall c :: c in chars <==> c in data
  {
    if data == [] then []
    else
      var init := data[..|data| - 1];
      assert data == init + [data[|data| - 1]];
      InsertChar(Chars(init), data[|data| - 1])
  }

  /** Two ascending runs of distinct characters holding the same characters are the same run. */
  lemma {:induction false} AscendingUnique(a: seq<char>, b: seq<char>)
    requires StrictlyAscending(a) && StrictlyAscending(b)
    requires forall c :: c in a <==> c in b
    ensures a == b
    decreases |a|
  {
    assert a != [] <==> b != [] by {
      if a != [] { assert a[0] in b; }
      if b != [] { assert b[0] in a; }
    }
    if a != [] {
      assert a[0] == b[0] by {
        assert a[0] in a && b[0] in b;
        var i :| 0 <= i < |b| && b[i] == a[0];
        var j :| 0 <= j < |a| && a[j] == b[0];
        assert b[0] <= b[i] && a[0] <= a[j];
      }
      forall c ensures c in a[1..] <==> c in b[1..] {
        if c in a[1..] {
          var k :| 0 <= k < |a[1..]| && a[1..][k] == c;
          assert a[0] < a[k + 1];
          assert c in a;
          var i :| 0 <= i < |b| && b[i] == c;
          assert i != 0;
          assert b[1..][i - 1] == c;
        }
        if c in b[1..] {
          var k :| 0 <= k < |b[1..]| && b[1..][k] == c;
          assert b[0] < b[k + 1];
          assert c in b;
          var i :| 0 <= i < |a| && a[i] == c;
          assert i != 0;
          assert a[1..][i - 1] == c;
        }
      }
      AscendingUnique(a[1..], b[1..]);
      ConsTail(a);
      ConsTail(b);
    }
  }

  /** `chars` is the one ascending, duplicate-free listing of the characters of `data`. */
  lemma CharsIsSortedSet(data: string, cs: seq<char>)
    requires StrictlyAscending(cs)
    requires forall c :: c in cs <==> c in data
    ensures cs == Chars(data)
  {
    AscendingUnique(cs, Chars(data));
  }

  /** The elements of a run, as a set, built one element at a time. */
  function Elements(cs: seq<char>): (e: set<char>)
    ensures forall c :: c in e <==> c in cs
  {
    if cs == [] then {}
    else
      assert forall c :: c in cs <==> c == cs[0] || c in cs[1..] by {
        forall c | c in cs ensures c == cs[0] || c in cs[1..] {
          var k :| 0 <= k < |cs| && cs[k] == c;
          if k > 0 { assert cs[1..][k - 1] == c; }
        }
      }
      {cs[0]} + Elements(cs[1..])
  }

  /** A duplicate-free run has as many elements as it has distinct characters. */
  lemma {:induction false} DistinctCount(cs: seq<char>)
    requires StrictlyAscending(cs)
    ensures |Elements(cs)| == |cs|
    decreases |cs|
  {
    if cs != [] {
      var tail := cs[1..];
      assert StrictlyAscending(tail);
      DistinctCount(tail);
      assert cs[0] !in tail;
    }
  }

  /** `vocab_size`: the number of distinct characters of `data`. */
  function VocabSize(data: string): (n: nat)
    ensures n == |CharSet(data)|
  {
    DistinctCount(Chars(data));
    assert Elements(Chars(data)) == CharSet(data);
    |Chars(data)|
  }

  // ---------------------------------------------------------------------------
  // stoi = { ch:i for i,ch in enumerate(chars) }, itos = { i:ch for ... }
  // ---------------------------------------------------------------------------

  function Stoi(data: string): (stoi: map<char, nat>)
    ensures stoi.Keys == CharSet(data)
    ensures forall i :: 0 <= i < |Chars(data)| ==> stoi[Chars(data)[i]] == i
  {
    var chars := Chars(data);
    map i | 0 <= i < |chars| :: chars[i] := i
  }

  function Itos(data: string): (itos: map<nat, char>)
    ensures forall i: nat :: i in itos <==> i < VocabSize(data)
    ensures forall i: nat :: i in itos ==> itos[i] == Chars(data)[i]
  {
    var chars := Chars(data);
    map i | 0 <= i < |chars| :: chars[i]
  }

  /** `itos[stoi[c]] == c` for each character of the vocabulary. */
  lemma ItosOfStoi(data: string, c: char)
    requires c in data
    ensures c in Stoi(data) && Stoi(data)[c] in Itos(data)
    ensures Itos(data)[Stoi(data)[c]] == c
  {
    var chars := Chars(data);
    var i :| 0 <= i < |chars| && chars[i] == c;
    assert Stoi(data)[c] == i;
  }

  /** `stoi[itos[i]] == i` for every id below `vocab_size`. */
  lemma StoiOfItos(data: string, i: nat)
    requires i < VocabSize(data)
    ensures i in Itos(data) && Itos(data)[i] in Stoi(data)
    ensures Stoi(data)[Itos(data)[i]] == i
  {
    assert Itos(data)[i] == Chars(data)[i];
  }

  /** `itos` undoes `stoi` on every character of `data`, and `stoi` undoes `itos` below `n`. */
  predicate UndoEachOther(stoi: map<char, nat>, itos: map<nat, char>, data: string, n: nat)
  {
    && (forall c :: c in data ==> c in stoi && stoi[c] in itos && itos[stoi[c]] == c)
    && (forall i: nat :: i < n ==> i in itos && itos[i] in stoi && stoi[itos[i]] == i)
  }

  /** `stoi` and `itos` are inverse bijections between the vocabulary and `0 .. vocab_size-1`. */
  lemma MapsInverse(data: string)
    ensures UndoEachOther(Stoi(data), Itos(data), data, VocabSize(data))
  {
    forall c | c in data
      ensures c in Stoi(data) && Stoi(data)[c] in Itos(data) && Itos(data)[Stoi(data)[c]] == c
    {
      ItosOfStoi(data, c);
    }
    forall i: nat | i < VocabSize(data)
      ensures i in Itos(data) && Itos(data)[i] in Stoi(data) && Stoi(data)[Itos(data)[i]] == i
    {
      StoiOfItos(data, i);
    }
  }

  /** `stoi[c]` is the rank of `c`: how many characters of `data` are smaller than `c`. */
  lemma StoiIsRank(data: string, c: char)
    requires c in data
    ensures Stoi(data)[c] == |set d | d in data && d < c|
  {
    var chars := Chars(data);
    var i :| 0 <= i < |chars| && chars[i] == c;
    assert Stoi(data)[c] == i;
    var below := chars[..i];
    assert StrictlyAscending(below);
    DistinctCount(below);
    RankSet(data, chars, i);
  }

  lemma RankSet(data: string, chars: seq<char>, i: nat)
    requires chars == Chars(data) && i < |chars|
    ensures (set d | d in data && d < chars[i]) == Elements(chars[..i])
  {
    var c, below := chars[i], chars[..i];
    forall d | d in data && d < c ensures d in below {
      var k :| 0 <= k < |chars| && chars[k] == d;
      assert below[k] == d;
    }
    forall d | d in below ensures d in data && d < c {
      var k :| 0 <= k < i && below[k] == d;
      assert chars[k] == d;
    }
  }

  // ---------------------------------------------------------------------------
  // encode / decode
  // ---------------------------------------------------------------------------

  /** `encode(s) = [stoi[c] for c in s]`; a character missing from `stoi` is a `KeyError`. */
  function Encode(stoi: map<char, nat>, s: string): (ids: seq<nat>)
    requires forall c :: c in s ==> c in stoi
    ensures |ids| == |s|
    ensures forall k :: 0 <= k < |s| ==> ids[k] == stoi[s[k]]
  {
    if s == [] then []
    else
      assert forall c :: c in s[1..] ==> c in s;
      [stoi[s[0]]] + Encode(stoi, s[1..])
  }

  /** `decode(l) = ''.join([itos[i] for i in l])`; an id missing from `itos` is a `KeyError`. */
  function Decode(itos: map<nat, char>, ids: seq<nat>): (s: string)
    requires forall i :: i in ids ==> i in itos
    ensures |s| == |ids|
    ensures forall k :: 0 <= k < |ids| ==> s[k] == itos[ids[k]]
  {
    if ids == [] then []
    else
      assert forall i :: i in ids[1..] ==> i in ids;
      [itos[ids[0]]] + Decode(itos, ids[1..])
  }

  /** Every id that `encode` produces lies in `[0, vocab_size)`. */
  lemma EncodeInRange(data: string, s: string)
    requires forall c :: c in s ==> c in data
    ensures forall i :: i in Encode(Stoi(data), s) ==> i < VocabSize(data)
  {
    var ids := Encode(Stoi(data), s);
    forall i | i in ids ensures i < VocabSize(data) {
      var k :| 0 <= k < |ids| && ids[k] == i;
      assert s[k] in data;
      ItosOfStoi(data, s[k]);
    }
  }

  /** `decode(encode(s)) == s` for every `s` over the vocabulary. */
  lemma DecodeEncode(data: string, s: string)
    requires forall c :: c in s ==> c in data
    ensures var ids := Encode(Stoi(data), s);
            (forall i :: i in ids ==> i in Itos(data)) && Decode(Itos(data), ids) == s
  {
    var stoi, itos := Stoi(data), Itos(data);
    forall c | c in s ensures c in stoi && stoi[c] in itos && itos[stoi[c]] == c {
      ItosOfStoi(data, c);
    }
    InverseMapsRoundTrip(stoi, itos, s);
  }

  /** Maps that undo each other on the characters of `s` make decoding undo encoding on `s`. */
  lemma InverseMapsRoundTrip(stoi: map<char, nat>, itos: map<nat, char>, s: string)
    requires forall c :: c in s ==> c in stoi && stoi[c] in itos && itos[stoi[c]] == c
    ensures forall i :: i in Encode(stoi, s) ==> i in itos
    ensures Decode(itos, Encode(stoi, s)) == s
  {
    var ids := Encode(stoi, s);
    forall i | i in ids ensures i in itos {
      var k :| 0 <= k < |ids| && ids[k] == i;
      assert s[k] in s;
    }
    var back := Decode(itos, ids);
    forall k | 0 <= k < |s| ensures back[k] == s[k] {
      assert s[k] in s;
    }
  }

  /** `encode(decode(ids)) == ids` for every id list below `vocab_size`. */
  lemma EncodeDecode(data: string, ids: seq<nat>)
    requires forall i :: i in ids ==> i < VocabSize(data)
    ensures var s := Decode(Itos(data), ids);
            (forall c :: c in s ==> c in Stoi(data)) && Encode(Stoi(data), s) == ids
  {
    var s := Decode(Itos(data), ids);
    forall c | c in s ensures c in Stoi(data) {
      var k :| 0 <= k < |s| && s[k] == c;
      assert ids[k] in ids;
      assert c == Chars(data)[ids[k]];
    }
    var again := Encode(Stoi(data), s);
    forall k | 0 <= k < |ids| ensures again[k] == ids[k] {
      assert ids[k] in ids;
      StoiOfItos(data, ids[k]);
    }
  }

  /** Encoding works piece by piece: `encode(a + b) == encode(a) + encode(b)`. */
  lemma EncodeAppend(stoi: map<char, nat>, a: string, b: string)
    requires forall c :: c in a ==> c in stoi
    requires forall c :: c in b ==> c in stoi
    ensures forall c :: c in a + b ==> c in stoi
    ensures Encode(stoi, a + b) == Encode(stoi, a) + Encode(stoi, b)
  {
    var ab := a + b;
    assert forall c :: c in ab ==> c in stoi by {
      forall c | c in ab ensures c in stoi {
        var k :| 0 <= k < |ab| && ab[k] == c;
        if k < |a| { assert a[k] == c; } else { assert b[k - |a|] == c; }
      }
    }
    var lhs, rhs := Encode(stoi, ab), Encode(stoi, a) + Encode(stoi, b);
    forall k | 0 <= k < |ab| ensures lhs[k] == rhs[k] {
      if k < |a| { assert ab[k] == a[k]; } else { assert ab[k] == b[k - |a|]; }
    }
  }

  // ---------------------------------------------------------------------------
  // The 90/10 split
  // ---------------------------------------------------------------------------

  /** `int(n*0.9)`, taken as the integer `floor(9n/10)`. */
  function SplitOffset(n: nat): (k: nat)
    ensures k <= n
    ensures 10 * k <= 9 * n < 10 * k + 10
  {
    n * 9 / 10
  }

  /** `train_data = data[:int(n*0.9)]`. */
  function TrainData(data: string): (train: string)
    ensures |train| == SplitOffset(|data|) && train == data[..|train|]
  {
    data[..SplitOffset(|data|)]
  }

  /** `val_data = data[int(n*0.9):]`. */
  function ValData(data: string): (val: string)
    ensures |val| == |data| - SplitOffset(|data|) && val == data[|data| - |val|..]
  {
    data[SplitOffset(|data|)..]
  }

  /** The split partitions the corpus exactly: train is the prefix, val the rest. */
  lemma SplitPartitions(data: string)
    ensures TrainData(data) + ValData(data) == data
    ensures |TrainData(data)| + |ValData(data)| == |data|
  {
    assert data[..SplitOffset(|data|)] + data[SplitOffset(|data|)..] == data;
  }

  /** Every character of either half occurs in the corpus. */
  lemma HalvesOverCorpus(data: string)
    ensures forall c :: c in TrainData(data) ==> c in data
    ensures forall c :: c in ValData(data) ==> c in data
  {
    var train, val := TrainData(data), ValData(data);
    forall c | c in train ensures c in data {
      var k :| 0 <= k < |train| && train[k] == c;
      assert data[k] == c;
    }
    forall c | c in val ensures c in data {
      var k :| 0 <= k < |val| && val[k] == c;
      assert data[|data| - |val| + k] == c;
    }
  }

  /**
    The token lists of the two halves concatenate to the encoding of the whole
    corpus; each has as many tokens as its half has characters, so together
    they have `len(data)` tokens.
  */
  lemma SplitTokenCounts(data: string)
    ensures forall c :: c in TrainData(data) ==> c in Stoi(data)
    ensures forall c :: c in ValData(data) ==> c in Stoi(data)
    ensures var trainIds, valIds := Encode(Stoi(data), TrainData(data)), Encode(Stoi(data), ValData(data));
            && |trainIds| == |TrainData(data)| && |valIds| == |ValData(data)|
            && |trainIds| + |valIds| == |data|
            && trainIds + valIds == Encode(Stoi(data), data)
  {
    var train, val := TrainData(data), ValData(data);
    SplitPartitions(data);
    HalvesOverCorpus(data);
    EncodeAppend(Stoi(data), train, val);
  }

  // ---------------------------------------------------------------------------
  // uint16 storage
  // ---------------------------------------------------------------------------

  const Uint16Limit: nat := 65536

  predicate FitsUint16(ids: seq<nat>)
  {
    forall i :: i in ids ==> i < Uint16Limit
  }

  /** Every id fits the `uint16` arrays as long as the vocabulary has at most 65536 characters. */
  lemma EncodedIdsFitUint16(data: string, s: string)
    requires VocabSize(data) <= Uint16Limit
    requires forall c :: c in s ==> c in data
    ensures FitsUint16(Encode(Stoi(data), s))
  {
    EncodeInRange(data, s);
  }

  // ---------------------------------------------------------------------------
  // Metadata record and the summary's round-trip self-check
  // ---------------------------------------------------------------------------

  datatype Meta = Meta(
    vocabSize: nat,
    itos: map<nat, char>,
    stoi: map<char, nat>,
    dataSource: string,
    totalChars: nat,
    trainChars: nat,
    valChars: nat,
    dtype: string)

  /** The `meta` dictionary that is pickled next to the arrays. */
  function BuildMeta(data: string): (m: Meta)
    ensures m.vocabSize == |CharSet(data)| && m.stoi.Keys == CharSet(data)
    ensures forall i: nat :: i in m.itos <==> i < m.vocabSize
    ensures m.stoi == Stoi(data) && m.itos == Itos(data)
    ensures UndoEachOther(m.stoi, m.itos, data, m.vocabSize)
    ensures m.totalChars == |data| && m.trainChars + m.valChars == m.totalChars
    ensures 10 * m.trainChars <= 9 * m.totalChars < 10 * m.trainChars + 10
  {
    MapsInverse(data);
    Meta(VocabSize(data), Itos(data), Stoi(data),
         "Google Cloud Vision OCR - consolidated_extracted_text.txt",
         |data|, |TrainData(data)|, |ValData(data)|, "<class 'numpy.uint16'>")
  }

  /** `test_text = data[:100].strip()`. */
  function SampleText(data: string): (t: string)
    ensures |t| <= 100 && forall c :: c in t ==> c in data
  {
    var prefix := if |data| <= 100 then data else data[..100];
    assert forall c :: c in prefix ==> c in data;
    Strip(prefix)
  }

  /** The summary's `Match:` line: the sample decodes back to itself, on every corpus. */
  function SampleMatches(data: string): (matches: bool)
    ensures matches
  {
    var t := SampleText(data);
    DecodeEncode(data, t);
    Decode(Itos(data), Encode(Stoi(data), t)) == t
  }

  /** The worked example: corpus "aabc" has vocabulary a, b, c. */
  lemma AabcVocabulary()
    ensures Chars("aabc") == ['a', 'b', 'c'] && VocabSize("aabc") == 3
  {
    CharsIsSortedSet("aabc", ['a', 'b', 'c']);
  }

  /** ... encodes to [0, 0, 1, 2] ... */
  lemma AabcEncoding()
    ensures Encode(Stoi("aabc"), "aabc") == [0, 0, 1, 2]
  {
    AabcVocabulary();
    var stoi := Stoi("aabc");
    AabcCodes(stoi);
    var ids := Encode(stoi, "aabc");
    assert ids[0] == 0 && ids[1] == 0 && ids[2] == 1 && ids[3] == 2;
    FourIds(ids);
  }

  lemma FourIds(ids: seq<nat>)
    requires |ids| == 4 && ids[0] == 0 && ids[1] == 0 && ids[2] == 1 && ids[3] == 2
    ensures ids == [0, 0, 1, 2]
  {
  }

  lemma AabcCodes(stoi: map<char, nat>)
    requires Chars("aabc") == ['a', 'b', 'c'] && stoi == Stoi("aabc")
    ensures 'a' in stoi && 'b' in stoi && 'c' in stoi
    ensures stoi['a'] == 0 && stoi['b'] == 1 && stoi['c'] == 2
  {
    assert Chars("aabc")[0] == 'a' && Chars("aabc")[1] == 'b' && Chars("aabc")[2] == 'c';
  }

  /** ... and splits into "aab" and "c". */
  lemma AabcSplit()
    ensures TrainData("aabc") == "aab" && ValData("aabc") == "c"
  {
  }
}
