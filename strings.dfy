/**
  Python string built-ins that the three scripts rely on, stated over `seq<char>`:
  whitespace as `str.isspace()` sees it, `str.strip()`, `str.split()`, `" ".join`,
  `str(n)`, zero padding (`{:03d}`), thousands grouping (`{:,}`), `os.path.join`
  on POSIX and the code-point lexicographic order of `str.__lt__`.
*/
module Strings {

  // ---------------------------------------------------------------------------
  // Whitespace
  // ---------------------------------------------------------------------------

  /** The characters for which Python's `str.isspace()` holds. */
  predicate IsSpace(c: char)
  {
    || c == ' '
    || ('\t' <= c <= '\r')
    || ('\U{1C}' <= c <= '\U{1F}')
    || c == '\U{85}' || c == '\U{A0}' || c == '\U{1680}'
    || ('\U{2000}' <= c <= '\U{200A}')
    || c == '\U{2028}' || c == '\U{2029}' || c == '\U{202F}' || c == '\U{205F}'
    || c == '\U{3000}'
  }

  predicate AllSpace(s: string)
  {
    forall k :: 0 <= k < |s| ==> IsSpace(s[k])
  }

  predicate NoSpace(s: string)
  {
    forall k :: 0 <= k < |s| ==> !IsSpace(s[k])
  }

  /** `s.lstrip()`: drops the leading whitespace. */
  function StripStart(s: string): (r: string)
    ensures |r| <= |s| && r == s[|s| - |r|..]
    ensures AllSpace(s[..|s| - |r|])
    ensures r == [] || !IsSpace(r[0])
  {
    if s != [] && IsSpace(s[0]) then
      var r := StripStart(s[1..]);
      LeadingSpaceStep(s, r);
      r
    else s
  }

  /** `s.rstrip()`: drops the trailing whitespace. */
  function StripEnd(s: string): (r: string)
    ensures |r| <= |s| && r == s[..|r|]
    ensures AllSpace(s[|r|..])
    ensures r == [] || !IsSpace(r[|r| - 1])
  {
    if s != [] && IsSpace(s[|s| - 1]) then
      var r := StripEnd(s[..|s| - 1]);
      TrailingSpaceStep(s, r);
      r
    else s
  }

  /** One more whitespace character in front keeps `r` a suffix after whitespace. */
  lemma LeadingSpaceStep(s: string, r: string)
    requires s != [] && IsSpace(s[0])
    requires |r| <= |s| - 1 && r == s[1..][|s| - 1 - |r|..] && AllSpace(s[1..][..|s| - 1 - |r|])
    ensures r == s[|s| - |r|..] && AllSpace(s[..|s| - |r|])
  {
    assert s[1..][|s| - 1 - |r|..] == s[|s| - |r|..];
    AllSpaceCons(s[0], s[1..][..|s| - 1 - |r|]);
    assert s[..|s| - |r|] == [s[0]] + s[1..][..|s| - 1 - |r|];
  }

  /** One more whitespace character behind keeps `r` a prefix before whitespace. */
  lemma TrailingSpaceStep(s: string, r: string)
    requires s != [] && IsSpace(s[|s| - 1])
    requires |r| <= |s| - 1 && r == s[..|s| - 1][..|r|] && AllSpace(s[..|s| - 1][|r|..])
    ensures r == s[..|r|] && AllSpace(s[|r|..])
  {
    var init := s[..|s| - 1];
    assert init[..|r|] == s[..|r|];
    AllSpaceSnoc(init[|r|..], s[|s| - 1]);
    assert s[|r|..] == init[|r|..] + [s[|s| - 1]];
  }

  lemma AllSpaceCons(c: char, s: string)
    requires IsSpace(c) && AllSpace(s)
    ensures AllSpace([c] + s)
  {
    forall k | 0 <= k < |s| + 1 ensures IsSpace(([c] + s)[k]) {
      if k > 0 { assert ([c] + s)[k] == s[k - 1]; }
    }
  }

  lemma AllSpaceSnoc(s: string, c: char)
    requires AllSpace(s) && IsSpace(c)
    ensures AllSpace(s + [c])
  {
    forall k | 0 <= k < |s| + 1 ensures IsSpace((s + [c])[k]) {
      if k < |s| { assert (s + [c])[k] == s[k]; }
    }
  }

  /**
    `s.strip()`: the piece of `s` left once the whitespace on either side is
    removed; it is empty exactly when `s` is all whitespace.
  */
  function Strip(s: string): (r: string)
    ensures |r| <= |s| && forall c :: c in r ==> c in s
    ensures r == [] || (!IsSpace(r[0]) && !IsSpace(r[|r| - 1]))
    ensures r == [] <==> AllSpace(s)
  {
    var t := StripStart(s);
    var r := StripEnd(t);
    PrefixOfSuffix(s, t, r);
    EmptyBetweenSpaces(s, t, r);
    r
  }

  /**
    The stripped text is the slice `s[a..b]` between an all-whitespace prefix
    `s[..a]` and an all-whitespace suffix `s[b..]`.
  */
  lemma StripShape(s: string)
    ensures exists a, b {:trigger s[a..b]} :: 0 <= a <= b <= |s| && Strip(s) == s[a..b]
                                            && AllSpace(s[..a]) && AllSpace(s[b..])
  {
    var t := StripStart(s);
    SliceBetweenSpaces(s, t, StripEnd(t));
  }

  /** A prefix `r` of a suffix `t` of `s`, cut off by whitespace on both sides. */
  lemma SliceBetweenSpaces(s: string, t: string, r: string)
    requires |t| <= |s| && t == s[|s| - |t|..] && AllSpace(s[..|s| - |t|])
    requires |r| <= |t| && r == t[..|r|] && AllSpace(t[|r|..])
    ensures exists a, b {:trigger s[a..b]} :: 0 <= a <= b <= |s| && r == s[a..b]
                                            && AllSpace(s[..a]) && AllSpace(s[b..])
  {
    PrefixOfSuffix(s, t, r);
    assert r == s[|s| - |t|..|s| - |t| + |r|];
  }

  /** A prefix `r` of a suffix `t` of `s` is a slice of `s`. */
  lemma PrefixOfSuffix<T>(s: seq<T>, t: seq<T>, r: seq<T>)
    requires |t| <= |s| && t == s[|s| - |t|..]
    requires |r| <= |t| && r == t[..|r|]
    ensures r == s[|s| - |t|..|s| - |t| + |r|]
    ensures s[|s| - |t| + |r|..] == t[|r|..]
    ensures forall c :: c in r ==> c in s
  {
    var a := |s| - |t|;
    forall c | c in r ensures c in s {
      var k :| 0 <= k < |r| && r[k] == c;
      assert s[a + k] == c;
    }
  }

  /** Between whitespace, the piece left is empty exactly when all of `s` is whitespace. */
  lemma EmptyBetweenSpaces(s: string, t: string, r: string)
    requires |t| <= |s| && t == s[|s| - |t|..] && AllSpace(s[..|s| - |t|])
    requires t == [] || !IsSpace(t[0])
    requires |r| <= |t| && r == t[..|r|] && AllSpace(t[|r|..])
    ensures r == [] <==> AllSpace(s)
  {
    if t != [] {
      assert t[0] == s[|s| - |t|];
      assert t[0..] == t;
    } else {
      assert s[..|s|] == s;
    }
  }

  lemma {:induction false} StripStartOfSpaces(s: string, t: string)
    requires AllSpace(s)
    ensures StripStart(s + t) == StripStart(t)
    decreases |s|
  {
    if s != [] {
      var st := s + t;
      assert st[0] == s[0];
      assert st[1..] == s[1..] + t;
      assert AllSpace(s[1..]) by {
        forall k | 0 <= k < |s| - 1 ensures IsSpace(s[1..][k]) {
          assert s[1..][k] == s[k + 1];
        }
      }
      StripStartOfSpaces(s[1..], t);
      assert StripStart(st) == StripStart(st[1..]);
    } else {
      assert s + t == t;
    }
  }

  /** `lstrip` of a concatenation stops inside the first part when that part has non-whitespace. */
  lemma {:induction false} StripStartAppend(s: string, t: string)
    requires !AllSpace(s)
    ensures StripStart(s + t) == StripStart(s) + t
    decreases |s|
  {
    assert s != [];
    ConsAppend(s, t);
    if IsSpace(s[0]) {
      NotAllSpaceTail(s);
      StripStartAppend(s[1..], t);
      StripStartSkip(s + t);
      StripStartSkip(s);
    } else {
      StripStartKeep(s + t);
      StripStartKeep(s);
    }
  }

  /** The head and tail of a concatenation with a non-empty first part. */
  lemma ConsAppend<T>(s: seq<T>, t: seq<T>)
    requires s != []
    ensures (s + t)[0] == s[0] && (s + t)[1..] == s[1..] + t
  {
  }

  /** A leading blank is not the only non-blank character. */
  lemma NotAllSpaceTail(s: string)
    requires !AllSpace(s) && s != [] && IsSpace(s[0])
    ensures !AllSpace(s[1..])
  {
    var k :| 0 <= k < |s| && !IsSpace(s[k]);
    assert s[1..][k - 1] == s[k];
  }

  /** `lstrip` skips a leading whitespace character. */
  lemma StripStartSkip(s: string)
    requires s != [] && IsSpace(s[0])
    ensures StripStart(s) == StripStart(s[1..])
  {
  }

  /** `lstrip` stops at a non-whitespace character. */
  lemma StripStartKeep(s: string)
    requires s != [] && !IsSpace(s[0])
    ensures StripStart(s) == s
  {
  }

  /** One trailing blank changes nothing once the string is stripped. */
  lemma StripTrailingBlank(s: string)
    ensures Strip(s + " ") == Strip(s)
  {
    if AllSpace(s) {
      AllSpaceSnoc(s, ' ');
      assert s + [' '] == s + " ";
    } else {
      StripStartAppend(s, " ");
      var t := StripStart(s);
      var u := t + " ";
      assert u[|u| - 1] == ' ' && IsSpace(' ');
      assert u[..|u| - 1] == t;
      assert StripEnd(u) == StripEnd(t);
    }
  }

  /** A string with no whitespace at either end is its own strip. */
  lemma StripTrimmed(s: string)
    requires s == [] || (!IsSpace(s[0]) && !IsSpace(s[|s| - 1]))
    ensures Strip(s) == s
  {
    if s != [] {
      assert StripStart(s) == s;
      assert StripEnd(s) == s;
    }
  }

  /** Stripping twice is stripping once. */
  lemma StripIdempotent(s: string)
    ensures Strip(Strip(s)) == Strip(s)
  {
    var r := Strip(s);
    assert r == [] || (!IsSpace(r[0]) && !IsSpace(r[|r| - 1]));
    StripTrimmed(r);
  }

  // ---------------------------------------------------------------------------
  // str.split() and " ".join()
  // ---------------------------------------------------------------------------

  /** The longest prefix of `s` that holds no whitespace. */
  function LeadingWord(s: string): (w: string)
    ensures |w| <= |s| && w == s[..|w|] && NoSpace(w)
    ensures |w| == |s| || IsSpace(s[|w|])
  {
    if s == [] || IsSpace(s[0]) then [] else [s[0]] + LeadingWord(s[1..])
  }

  /** `s.split()` with no argument: the maximal runs of non-whitespace, in order. */
  function Split(s: string): (words: seq<string>)
    ensures forall w :: w in words ==> w != [] && NoSpace(w)
    decreases |s|
  {
    var t := StripStart(s);
    if t == [] then []
    else
      var w := LeadingWord(t);
      assert w != [] by { assert !IsSpace(t[0]); }
      var rest := Split(t[|w|..]);
      assert forall x :: x in [w] + rest ==> x == w || x in rest;
      [w] + rest
  }

  /** `" ".join(words)`. */
  function JoinSpaced(words: seq<string>): string
  {
    if words == [] then []
    else if |words| == 1 then words[0]
    else words[0] + " " + JoinSpaced(words[1..])
  }

  /** Joining one more word puts a single blank before it. */
  lemma {:induction false} JoinSpacedSnoc(words: seq<string>, w: string)
    requires words != []
    ensures JoinSpaced(words + [w]) == JoinSpaced(words) + " " + w
    decreases |words|
  {
    var all := words + [w];
    assert all[0] == words[0];
    if |words| > 1 {
      assert all[1..] == words[1..] + [w];
      JoinSpacedSnoc(words[1..], w);
    } else {
      assert all[1..] == [w];
    }
  }

  /** `"".join(parts)`. */
  function Concat(parts: seq<string>): string
  {
    if parts == [] then [] else Concat(parts[..|parts| - 1]) + parts[|parts| - 1]
  }

  /** Joining is piecewise: the parts of a concatenation join to the joined parts. */
  lemma {:induction false} ConcatAppend(a: seq<string>, b: seq<string>)
    ensures Concat(a + b) == Concat(a) + Concat(b)
    decreases |b|
  {
    if b == [] {
      assert a + b == a;
    } else {
      var all := a + b;
      assert all[..|all| - 1] == a + b[..|b| - 1];
      ConcatAppend(a, b[..|b| - 1]);
    }
  }

  lemma {:induction false} LeadingWordOf(w: string, tail: string)
    requires NoSpace(w)
    requires tail == [] || IsSpace(tail[0])
    ensures LeadingWord(w + tail) == w
    decreases |w|
  {
    if w == [] {
      assert w + tail == tail;
    } else {
      assert (w + tail)[0] == w[0];
      assert (w + tail)[1..] == w[1..] + tail;
      LeadingWordOf(w[1..], tail);
    }
  }

  /** A word followed by nothing or by whitespace is split off first. */
  lemma SplitLeadingWord(w: string, tail: string)
    requires w != [] && NoSpace(w)
    requires tail == [] || IsSpace(tail[0])
    ensures Split(w + tail) == [w] + Split(tail)
  {
    var s := w + tail;
    assert s[0] == w[0];
    assert StripStart(s) == s;
    LeadingWordOf(w, tail);
    assert s[|w|..] == tail;
  }

  lemma ConsTail<T>(s: seq<T>)
    requires s != []
    ensures [s[0]] + s[1..] == s
  {
  }

  /** The members of a non-empty sequence are those of its front and its last element. */
  lemma SnocMembers<T>(s: seq<T>)
    requires s != []
    ensures forall x :: x in s <==> x in s[..|s| - 1] || x == s[|s| - 1]
  {
    assert s == s[..|s| - 1] + [s[|s| - 1]];
  }

  lemma AppendAssoc<T>(a: seq<T>, b: seq<T>, c: seq<T>)
    ensures (a + b) + c == a + (b + c)
  {
  }

  /** A leading blank does not change how a string is split. */
  lemma SplitAfterBlank(rest: string)
    ensures Split(" " + rest) == Split(rest)
  {
    assert AllSpace(" ");
    StripStartOfSpaces(" ", rest);
  }

  /** `str.split()` undoes `" ".join` on words that are non-empty and blank-free. */
  lemma {:induction false} SplitJoinSpaced(words: seq<string>)
    requires forall w :: w in words ==> w != [] && NoSpace(w)
    ensures Split(JoinSpaced(words)) == words
    decreases |words|
  {
    if words == [] {
    } else if |words| == 1 {
      assert words[0] in words;
      SplitLeadingWord(words[0], []);
      assert words[0] + [] == words[0];
      assert Split([]) == [];
      assert [words[0]] + [] == words;
    } else {
      var w := words[0];
      assert w in words;
      var rest := JoinSpaced(words[1..]);
      var tail := " " + rest;
      assert JoinSpaced(words) == w + tail;
      assert tail[0] == ' ';
      SplitLeadingWord(w, tail);
      SplitAfterBlank(rest);
      assert forall v :: v in words[1..] ==> v in words;
      SplitJoinSpaced(words[1..]);
      ConsTail(words);
    }
  }

  // ---------------------------------------------------------------------------
  // Decimal numbers: str(n), {:03d}, {:,}
  // ---------------------------------------------------------------------------

  predicate IsDigit(c: char)
  {
    '0' <= c <= '9'
  }

  predicate AllDigits(s: string)
  {
    forall k :: 0 <= k < |s| ==> IsDigit(s[k])
  }

  function DigitValue(c: char): nat
    requires IsDigit(c)
  {
    (c as int) - ('0' as int)
  }

  function DigitChar(d: nat): (c: char)
    requires d < 10
    ensures IsDigit(c) && DigitValue(c) == d
  {
    (('0' as int) + d) as char
  }

  function Pow10(k: nat): (p: nat)
    ensures p >= 1
  {
    if k == 0 then 1 else 10 * Pow10(k - 1)
  }

  /** The number a string of decimal digits denotes, leading zeros included. */
  function DecimalValue(s: string): nat
    requires AllDigits(s)
  {
    if s == [] then 0 else DecimalValue(s[..|s| - 1]) * 10 + DigitValue(s[|s| - 1])
  }

  /**
    `str(n)` for a non-negative integer: its decimal digits, with no leading
    zero, of exactly the length that the magnitude of `n` asks for.
  */
  function NatToString(n: nat): (s: string)
    ensures s != [] && AllDigits(s)
    ensures s[0] == '0' <==> n == 0
    ensures n < Pow10(|s|)
    ensures |s| > 1 ==> Pow10(|s| - 1) <= n
    ensures DecimalValue(s) == n
  {
    if n < 10 then [DigitChar(n)]
    else
      var p := NatToString(n / 10);
      var s := p + [DigitChar(n % 10)];
      assert s[..|s| - 1] == p;
      assert Pow10(|s|) == 10 * Pow10(|p|);
      assert Pow10(|s| - 1) == Pow10(|p|);
      s
  }

  lemma {:induction false} DecimalValueAppend(a: string, b: string)
    requires AllDigits(a) && AllDigits(b)
    ensures AllDigits(a + b)
    ensures DecimalValue(a + b) == DecimalValue(a) * Pow10(|b|) + DecimalValue(b)
    decreases |b|
  {
    AllDigitsAppend(a, b);
    if b == [] {
      assert a + b == a;
    } else {
      var b' := b[..|b| - 1];
      DecimalValueSnoc(a, b);
      DecimalValueAppend(a, b');
      Regroup(DecimalValue(a + b), DecimalValue(a + b'), DecimalValue(a), Pow10(|b'|),
              DecimalValue(b'), DigitValue(b[|b| - 1]), Pow10(|b|), DecimalValue(b));
    }
  }

  /** Taking the last digit of `a + b` off leaves `a` followed by the rest of `b`. */
  lemma DecimalValueSnoc(a: string, b: string)
    requires AllDigits(a) && AllDigits(b) && b != []
    ensures AllDigits(a + b) && AllDigits(a + b[..|b| - 1])
    ensures DecimalValue(a + b) == DecimalValue(a + b[..|b| - 1]) * 10 + DigitValue(b[|b| - 1])
  {
    AllDigitsAppend(a, b);
    AllDigitsAppend(a, b[..|b| - 1]);
    assert (a + b)[..|a + b| - 1] == a + b[..|b| - 1];
    assert (a + b)[|a + b| - 1] == b[|b| - 1];
  }

  lemma AllDigitsAppend(a: string, b: string)
    requires AllDigits(a) && AllDigits(b)
    ensures AllDigits(a + b)
  {
    forall k | 0 <= k < |a + b| ensures IsDigit((a + b)[k]) {
      if k >= |a| { assert (a + b)[k] == b[k - |a|]; }
    }
  }

  lemma Regroup(v: int, w: int, x: int, p: int, y: int, d: int, q: int, z: int)
    requires v == w * 10 + d && w == x * p + y && q == p * 10 && z == y * 10 + d
    ensures v == x * q + z
  {
  }

  lemma {:induction false} DecimalValueOfZeros(k: nat)
    ensures AllDigits(Repeat('0', k)) && DecimalValue(Repeat('0', k)) == 0
  {
    if k > 0 {
      assert Repeat('0', k)[..k - 1] == Repeat('0', k - 1);
      DecimalValueOfZeros(k - 1);
    }
  }

  function Repeat(c: char, n: nat): (r: string)
    ensures |r| == n && forall k :: 0 <= k < n ==> r[k] == c
  {
    seq(n, _ => c)
  }

  /**
    The `0<width>d` format of a non-negative number whose digits are `s`:
    `s` left-filled with '0' up to `width` characters, never cut short.
  */
  function ZeroPad(s: string, width: nat): (r: string)
    ensures |r| == if |s| >= width then |s| else width
    ensures r[|r| - |s|..] == s
    ensures forall k :: 0 <= k < |r| - |s| ==> r[k] == '0'
  {
    if |s| >= width then s else Repeat('0', width - |s|) + s
  }

  /** Zero padding keeps the value that the digits denote. */
  lemma ZeroPadValue(s: string, width: nat)
    requires AllDigits(s)
    ensures AllDigits(ZeroPad(s, width)) && DecimalValue(ZeroPad(s, width)) == DecimalValue(s)
  {
    if |s| < width {
      var z := Repeat('0', width - |s|);
      DecimalValueOfZeros(width - |s|);
      DecimalValueAppend(z, s);
    }
  }

  /** `format(n, ',')`: the digits of `n` with a comma between each group of three from the right. */
  function GroupThousands(n: nat): (s: string)
    ensures s != []
  {
    if n < 1000 then NatToString(n)
    else GroupThousands(n / 1000) + "," + ZeroPad(NatToString(n % 1000), 3)
  }

  function RemoveCommas(s: string): (r: string)
    ensures ',' !in r
  {
    if s == [] then []
    else RemoveCommas(s[..|s| - 1]) + (if s[|s| - 1] == ',' then [] else [s[|s| - 1]])
  }

  lemma {:induction false} RemoveCommasAppend(a: string, b: string)
    ensures RemoveCommas(a + b) == RemoveCommas(a) + RemoveCommas(b)
    decreases |b|
  {
    if b == [] {
      assert a + b == a;
    } else {
      assert (a + b)[..|a + b| - 1] == a + b[..|b| - 1];
      RemoveCommasAppend(a, b[..|b| - 1]);
    }
  }

  lemma {:induction false} RemoveCommasOfDigits(s: string)
    requires AllDigits(s)
    ensures RemoveCommas(s) == s
    decreases |s|
  {
    if s != [] {
      assert s == s[..|s| - 1] + [s[|s| - 1]];
      RemoveCommasOfDigits(s[..|s| - 1]);
    }
  }

  /** Dropping the commas of a grouped number gives back `str(n)`. */
  lemma {:induction false} GroupThousandsValue(n: nat)
    ensures AllDigits(RemoveCommas(GroupThousands(n)))
    ensures DecimalValue(RemoveCommas(GroupThousands(n))) == n
    ensures RemoveCommas(GroupThousands(n)) == NatToString(n)
    decreases n
  {
    if n < 1000 {
      RemoveCommasOfDigits(NatToString(n));
    } else {
      var hi := GroupThousands(n / 1000);
      var lo := ZeroPad(NatToString(n % 1000), 3);
      GroupThousandsValue(n / 1000);
      LowGroup(n % 1000);
      UngroupStep(hi, lo);
      var h := RemoveCommas(hi);
      DecimalValueAppend(h, lo);
      assert DecimalValue(h + lo) == (n / 1000) * 1000 + n % 1000;
      assert h == NatToString(n / 1000) && h[0] != '0';
      assert (h + lo)[0] == h[0];
      CanonicalDigits(h + lo);
    }
  }

  /** A digit string without a leading zero (other than "0" itself) is `str` of its value. */
  lemma {:induction false} CanonicalDigits(s: string)
    requires s != [] && AllDigits(s) && (|s| > 1 ==> s[0] != '0')
    ensures s == NatToString(DecimalValue(s))
    decreases |s|
  {
    if |s| == 1 {
      SingleDigit(s);
    } else {
      var p := s[..|s| - 1];
      assert p[0] == s[0];
      assert AllDigits(p) by {
        forall k | 0 <= k < |p| ensures IsDigit(p[k]) { assert p[k] == s[k]; }
      }
      CanonicalDigits(p);
      DigitStep(p, s[|s| - 1]);
      SnocLast(s);
    }
  }

  /** A single digit is `str` of its value. */
  lemma SingleDigit(s: string)
    requires |s| == 1 && AllDigits(s)
    ensures s == NatToString(DecimalValue(s))
  {
    var e := s[..|s| - 1];
    assert e == [] && DecimalValue(e) == 0;
    assert DecimalValue(s) == DigitValue(s[0]);
    assert DigitChar(DigitValue(s[0])) == s[0];
  }

  /** One more digit after a canonical, non-zero digit string keeps it canonical. */
  lemma DigitStep(p: string, d: char)
    requires p != [] && AllDigits(p) && p[0] != '0' && IsDigit(d)
    requires p == NatToString(DecimalValue(p))
    ensures AllDigits(p + [d])
    ensures p + [d] == NatToString(DecimalValue(p + [d]))
  {
    var s := p + [d];
    assert s[..|s| - 1] == p && s[|s| - 1] == d;
    assert AllDigits(s) by {
      forall k | 0 <= k < |s| ensures IsDigit(s[k]) { if k < |p| { assert s[k] == p[k]; } }
    }
    var v := DecimalValue(p);
    assert NatToString(v)[0] == p[0];
    assert DecimalValue(s) == v * 10 + DigitValue(d);
    NatToStringSnoc(v, d);
  }

  lemma SnocLast<T>(s: seq<T>)
    requires s != []
    ensures s[..|s| - 1] + [s[|s| - 1]] == s
  {
  }

  /** Appending a digit to `str(v)`, for `v > 0`, gives `str(10 * v + digit)`. */
  lemma NatToStringSnoc(v: nat, d: char)
    requires v != 0 && IsDigit(d)
    ensures NatToString(v * 10 + DigitValue(d)) == NatToString(v) + [d]
  {
    var n := v * 10 + DigitValue(d);
    assert n / 10 == v && n % 10 == DigitValue(d);
    assert DigitChar(DigitValue(d)) == d;
  }

  /** The last group of a grouped number: three digits worth `m`. */
  lemma LowGroup(m: nat)
    requires m < 1000
    ensures var lo := ZeroPad(NatToString(m), 3);
            |lo| == 3 && AllDigits(lo) && DecimalValue(lo) == m && Pow10(|lo|) == 1000
  {
    var d := NatToString(m);
    if |d| > 3 {
      Pow10Monotone(3, |d| - 1);
      assert Pow10(3) == 1000;
    }
    ZeroPadValue(d, 3);
    assert Pow10(3) == 1000;
  }

  lemma CommaRemoved()
    ensures RemoveCommas(",") == []
  {
    assert ","[..0] == [];
  }

  lemma UngroupStep(hi: string, lo: string)
    requires AllDigits(lo)
    ensures RemoveCommas(hi + "," + lo) == RemoveCommas(hi) + lo
  {
    RemoveCommasAppend(hi + ",", lo);
    RemoveCommasAppend(hi, ",");
    CommaRemoved();
    RemoveCommasOfDigits(lo);
    assert RemoveCommas(hi + ",") == RemoveCommas(hi);
  }

  lemma {:induction false} Pow10Monotone(i: nat, j: nat)
    requires i <= j
    ensures Pow10(i) <= Pow10(j)
    decreases j
  {
    if i < j {
      Pow10Monotone(i, j - 1);
    }
  }

  // ---------------------------------------------------------------------------
  // Paths and order
  // ---------------------------------------------------------------------------

  /** `os.path.join(a, b)` on POSIX: an absolute `b` wins; otherwise one '/' between. */
  function JoinPath(a: string, b: string): (p: string)
    ensures |b| <= |p| && p[|p| - |b|..] == b
  {
    if b != [] && b[0] == '/' then b
    else if a == [] || a[|a| - 1] == '/' then a + b
    else a + "/" + b
  }

  /** `a < b` on Python strings: lexicographic by code point, a proper prefix first. */
  predicate StrLess(a: string, b: string)
  {
    if a == [] then b != []
    else if b == [] then false
    else if a[0] != b[0] then a[0] < b[0]
    else StrLess(a[1..], b[1..])
  }

  lemma {:induction false} StrLessIrreflexive(a: string)
    ensures !StrLess(a, a)
    decreases |a|
  {
    if a != [] {
      StrLessIrreflexive(a[1..]);
    }
  }

  lemma {:induction false} StrLessTransitive(a: string, b: string, c: string)
    requires StrLess(a, b) && StrLess(b, c)
    ensures StrLess(a, c)
    decreases |a|
  {
    if a != [] && b != [] && c != [] && a[0] == b[0] && b[0] == c[0] {
      StrLessTransitive(a[1..], b[1..], c[1..]);
    }
  }

  lemma {:induction false} StrLessTotal(a: string, b: string)
    ensures a == b || StrLess(a, b) || StrLess(b, a)
    decreases |a|
  {
    if a != [] && b != [] && a[0] == b[0] {
      StrLessTotal(a[1..], b[1..]);
      if a[1..] == b[1..] {
        assert a == [a[0]] + a[1..] && b == [b[0]] + b[1..];
      }
    }
  }

  lemma {:induction false} StrLessAsymmetric(a: string, b: string)
    ensures !(StrLess(a, b) && StrLess(b, a))
  {
    if StrLess(a, b) && StrLess(b, a) {
      StrLessTransitive(a, b, a);
      StrLessIrreflexive(a);
    }
  }
}
