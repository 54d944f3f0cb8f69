/** String vocabulary of the dashboard: ECMAScript white space, `trim`, the
    regular-expression rewrites the feed parser and the scraper apply
    (`/\s\s+/g`, `/\s+/g`, `/<[^>]+>/g`), ASCII case folding, substring
    search and decimal rendering. */
module Text {
  import opened Wrappers

  /** A character matched by `\s` and removed by `String.prototype.trim`:
      the WhiteSpace and LineTerminator code points of ECMA-262. */
  predicate IsSpace(c: char) {
    var n := c as int;
    || n == 0x09 || n == 0x0A || n == 0x0B || n == 0x0C || n == 0x0D
    || n == 0x20 || n == 0xA0 || n == 0x1680
    || (0x2000 <= n <= 0x200A)
    || n == 0x2028 || n == 0x2029 || n == 0x202F || n == 0x205F
    || n == 0x3000 || n == 0xFEFF
  }

  /** No two adjacent characters are both white space. */
  ghost predicate NoDoubleSpace(s: string) {
    forall i :: 0 <= i < |s| - 1 ==> !(IsSpace(s[i]) && IsSpace(s[i + 1]))
  }

  /** Neither the first nor the last character is white space. */
  ghost predicate Trimmed(s: string) {
    s == [] || (!IsSpace(s[0]) && !IsSpace(s[|s| - 1]))
  }

  ghost predicate AllSpace(s: string) {
    forall i :: 0 <= i < |s| ==> IsSpace(s[i])
  }

  /** Length of the white-space run that starts `s`. */
  function SpaceRun(s: string): (n: nat)
    ensures n <= |s|
    ensures forall i :: 0 <= i < n ==> IsSpace(s[i])
    ensures n < |s| ==> !IsSpace(s[n])
  {
    if |s| > 0 && IsSpace(s[0]) then 1 + SpaceRun(s[1..]) else 0
  }

  /** `s.trimStart()`: drops a white-space prefix and nothing else. */
  function TrimStart(s: string): (r: string)
    ensures |r| <= |s| && r == s[|s| - |r|..]
    ensures forall i :: 0 <= i < |s| - |r| ==> IsSpace(s[i])
    ensures r == [] || !IsSpace(r[0])
  {
    if |s| > 0 && IsSpace(s[0]) then TrimStart(s[1..]) else s
  }

  /** `s.trimEnd()`: drops a white-space suffix and nothing else. */
  function TrimEnd(s: string): (r: string)
    ensures |r| <= |s| && r == s[..|r|]
    ensures forall i :: |r| <= i < |s| ==> IsSpace(s[i])
    ensures r == [] || !IsSpace(r[|r| - 1])
  {
    if |s| > 0 && IsSpace(s[|s| - 1]) then TrimEnd(s[..|s| - 1]) else s
  }

  /** `s.trim()`. */
  function Trim(s: string): (r: string)
    ensures |r| <= |s|
    ensures Trimmed(r)
    ensures NoDoubleSpace(s) ==> NoDoubleSpace(r)
    ensures AllSpace(s) <==> r == []
  {
    TrimSlice(s);
    TrimEnd(TrimStart(s))
  }

  lemma TrimSlice(s: string)
    ensures var t := TrimStart(s); var r := TrimEnd(t);
      && (NoDoubleSpace(s) ==> NoDoubleSpace(r))
      && (AllSpace(s) <==> r == [])
  {
    if NoDoubleSpace(s) {
      TrimSliceNoDoubleSpace(s);
    }
    TrimSliceAllSpace(s);
  }

  lemma TrimSliceNoDoubleSpace(s: string)
    requires NoDoubleSpace(s)
    ensures NoDoubleSpace(TrimEnd(TrimStart(s)))
  {
    var t := TrimStart(s);
    var k := |s| - |t|;
    SliceNoDoubleSpace(s, k, |s|);
    assert t == s[k..|s|];
    var r := TrimEnd(t);
    SliceNoDoubleSpace(t, 0, |r|);
    assert r == t[0..|r|];
  }

  lemma TrimSliceAllSpace(s: string)
    ensures AllSpace(s) <==> TrimEnd(TrimStart(s)) == []
  {
    var t := TrimStart(s);
    var r := TrimEnd(t);
    var k := |s| - |t|;
    assert t == s[k..];
  }

  /** The trimmed text is a slice of `s` with white space on both sides. */
  lemma TrimIsSlice(s: string) returns (k: nat)
    ensures k + |Trim(s)| <= |s|
    ensures Trim(s) == s[k..k + |Trim(s)|]
    ensures forall i :: 0 <= i < k ==> IsSpace(s[i])
    ensures forall i :: k + |Trim(s)| <= i < |s| ==> IsSpace(s[i])
  {
    var t := TrimStart(s);
    var r := TrimEnd(t);
    k := |s| - |t|;
    assert Trim(s) == r;
    assert t == s[k..] && r == t[..|r|];
    forall i | k + |r| <= i < |s| ensures IsSpace(s[i]) {
      assert s[i] == t[i - k];
    }
  }

  lemma SliceNoDoubleSpace(s: string, a: nat, b: nat)
    requires a <= b <= |s| && NoDoubleSpace(s)
    ensures NoDoubleSpace(s[a..b])
  {
    forall i | 0 <= i < |s[a..b]| - 1
      ensures !(IsSpace(s[a..b][i]) && IsSpace(s[a..b][i + 1]))
    {
      assert s[a..b][i] == s[a + i] && s[a..b][i + 1] == s[a + i + 1];
    }
  }

  /** Trimming an already trimmed string changes nothing. */
  lemma TrimTrimmed(s: string)
    requires Trimmed(s)
    ensures Trim(s) == s
  {
  }

  /** `s.replace(/\s\s+/g, ' ')`: every run of two or more white-space
      characters becomes one space; a lone white-space character is kept. */
  function SquashRuns(s: string): (r: string)
    ensures |r| <= |s|
    ensures NoDoubleSpace(r)
    ensures |s| > 0 ==> |r| > 0 && (IsSpace(r[0]) <==> IsSpace(s[0]))
    decreases |s|
  {
    if s == [] then []
    else
      var n := SpaceRun(s);
      if n >= 2 then [' '] + SquashRuns(s[n..])
      else [s[0]] + SquashRuns(s[1..])
  }

  /** `s.replace(/\s+/g, ' ')`: every white-space run becomes one space. */
  function CollapseRuns(s: string): (r: string)
    ensures |r| <= |s|
    ensures NoDoubleSpace(r)
    ensures forall i :: 0 <= i < |r| && IsSpace(r[i]) ==> r[i] == ' '
    ensures forall i :: 0 <= i < |r| ==> r[i] == ' ' || r[i] in s
    ensures |s| > 0 ==> |r| > 0 && (IsSpace(r[0]) <==> IsSpace(s[0]))
    ensures |s| > 0 && !IsSpace(s[0]) ==> r[0] == s[0]
    decreases |s|
  {
    if s == [] then []
    else
      var n := SpaceRun(s);
      if n >= 1 then [' '] + CollapseRuns(s[n..])
      else [s[0]] + CollapseRuns(s[1..])
  }

  /** The scraper's text normaliser: `t.replace(/\s\s+/g, ' ').trim()`. */
  function Normalise(s: string): (r: string)
    ensures |r| <= |s|
    ensures Trimmed(r)
    ensures NoDoubleSpace(r)
  {
    Trim(SquashRuns(s))
  }

  /** A string without adjacent white space passes `/\s\s+/g` unchanged. */
  lemma {:induction false} SquashRunsKeepsSingles(s: string)
    requires NoDoubleSpace(s)
    ensures SquashRuns(s) == s
    decreases |s|
  {
    if s != [] {
      if |s| >= 2 {
        assert !(IsSpace(s[0]) && IsSpace(s[1]));
      }
      assert NoDoubleSpace(s[1..]) by {
        forall i | 0 <= i < |s[1..]| - 1
          ensures !(IsSpace(s[1..][i]) && IsSpace(s[1..][i + 1]))
        {
          assert s[1..][i] == s[i + 1] && s[1..][i + 1] == s[i + 2];
        }
      }
      SquashRunsKeepsSingles(s[1..]);
      assert [s[0]] + s[1..] == s;
    }
  }

  /** Normalising twice is normalising once. */
  lemma {:induction false} NormaliseIdempotent(s: string)
    ensures Normalise(Normalise(s)) == Normalise(s)
  {
    var t := Normalise(s);
    SquashRunsKeepsSingles(t);
    TrimTrimmed(t);
  }

  /** A string whose only white space is isolated and inside is its own
      normal form: a lone tab or newline between words survives. */
  lemma {:induction false} NormaliseFixesSingles(s: string)
    requires Trimmed(s) && NoDoubleSpace(s)
    ensures Normalise(s) == s
  {
    SquashRunsKeepsSingles(s);
    TrimTrimmed(s);
  }

  /** The characters of `s` that are not white space, in order. */
  function Visible(s: string): (r: string)
    ensures forall i :: 0 <= i < |r| ==> !IsSpace(r[i])
  {
    if s == [] then []
    else (if IsSpace(s[0]) then [] else [s[0]]) + Visible(s[1..])
  }

  lemma {:induction false} VisibleConcat(a: string, b: string)
    ensures Visible(a + b) == Visible(a) + Visible(b)
  {
    if a != [] {
      assert (a + b)[0] == a[0];
      assert (a + b)[1..] == a[1..] + b;
      VisibleConcat(a[1..], b);
    } else {
      assert a + b == b;
    }
  }

  lemma {:induction false} VisibleOfSpaces(s: string)
    requires AllSpace(s)
    ensures Visible(s) == []
  {
    if s != [] {
      VisibleOfSpaces(s[1..]);
    }
  }

  /** `/\s\s+/g` rewrites white space only. */
  lemma {:induction false} SquashRunsVisible(s: string)
    ensures Visible(SquashRuns(s)) == Visible(s)
    decreases |s|
  {
    if s != [] {
      var n := SpaceRun(s);
      if n >= 2 {
        SquashRunsVisible(s[n..]);
        assert s == s[..n] + s[n..];
        VisibleConcat(s[..n], s[n..]);
        VisibleOfSpaces(s[..n]);
        VisibleConcat([' '], SquashRuns(s[n..]));
      } else {
        SquashRunsVisible(s[1..]);
        assert s == [s[0]] + s[1..];
        VisibleConcat([s[0]], s[1..]);
        VisibleConcat([s[0]], SquashRuns(s[1..]));
      }
    }
  }

  /** A white-space prefix or suffix carries nothing visible. */
  lemma VisibleAroundSpaces(a: string, b: string, c: string)
    requires AllSpace(a) && AllSpace(c)
    ensures Visible(a + b + c) == Visible(b)
  {
    VisibleConcat(a + b, c);
    VisibleConcat(a, b);
    VisibleOfSpaces(a);
    VisibleOfSpaces(c);
  }

  /** A string is its three consecutive slices. */
  lemma SplitThree(s: string, i: nat, j: nat)
    requires i <= j <= |s|
    ensures s == s[..i] + s[i..j] + s[j..]
  {
    assert s[..i] + s[i..j] == s[..j];
  }

  /** `trim` removes white space only. */
  lemma TrimVisible(s: string)
    ensures Visible(Trim(s)) == Visible(s)
  {
    var k := TrimIsSlice(s);
    var j := k + |Trim(s)|;
    var a, c := s[..k], s[j..];
    SplitThree(s, k, j);
    assert AllSpace(a) by {
      forall i | 0 <= i < |a| ensures IsSpace(a[i]) {
        assert a[i] == s[i];
      }
    }
    assert AllSpace(c) by {
      forall i | 0 <= i < |c| ensures IsSpace(c[i]) {
        assert c[i] == s[j + i];
      }
    }
    VisibleAroundSpaces(a, s[k..j], c);
  }

  /** The normaliser keeps every non-white-space character, in order:
      it only ever rewrites white space. */
  lemma NormaliseKeepsVisible(s: string)
    ensures Visible(Normalise(s)) == Visible(s)
  {
    SquashRunsVisible(s);
    TrimVisible(SquashRuns(s));
  }

  /** First index at or after `from` holding `c`. */
  function FindChar(s: string, c: char, from: nat): (r: Option<nat>)
    requires from <= |s|
    ensures r.Some? ==> from <= r.value < |s| && s[r.value] == c
    ensures r.Some? ==> forall k :: from <= k < r.value ==> s[k] != c
    ensures r.None? ==> forall k :: from <= k < |s| ==> s[k] != c
    decreases |s| - from
  {
    if from == |s| then None
    else if s[from] == c then Some(from)
    else FindChar(s, c, from + 1)
  }

  /** When `s` starts with a match of `/<[^>]+>/`, the index of its closing
      `>`: a `<`, at least one character other than `>`, then the first `>`. */
  function TagEnd(s: string): (r: Option<nat>)
    ensures r.Some? ==> 2 <= r.value < |s| && s[0] == '<' && s[r.value] == '>'
    ensures r.Some? ==> forall k :: 1 <= k < r.value ==> s[k] != '>'
    ensures r.None? && |s| >= 2 && s[0] == '<' && s[1] != '>' ==>
      forall k :: 1 <= k < |s| ==> s[k] != '>'
  {
    if |s| >= 2 && s[0] == '<' && s[1] != '>' then FindChar(s, '>', 2) else None
  }

  /** No position of `s` starts a `/<[^>]+>/` match. */
  ghost predicate TagFree(s: string) {
    forall i :: 0 <= i < |s| ==> TagEnd(s[i..]).None?
  }

  /** `s.replace(/<[^>]+>/g, ' ')`: each tag becomes one space. */
  function StripTags(s: string): (r: string)
    ensures |r| <= |s|
    ensures '>' !in s ==> r == s
    ensures |s| > 0 && s[0] != '<' ==> |r| > 0 && r[0] == s[0]
    decreases |s|
  {
    if s == [] then []
    else
      match TagEnd(s)
      case Some(j) => [' '] + StripTags(s[j + 1..])
      case None => [s[0]] + StripTags(s[1..])
  }

  /** What `/<[^>]+>/g` leaves behind contains no further tag: one pass
      removes every tag, including those the replacement could not create. */
  lemma {:induction false} StripTagsTagFree(s: string)
    ensures TagFree(StripTags(s))
    decreases |s|
  {
    if s != [] {
      var r := StripTags(s);
      match TagEnd(s)
      case Some(j) =>
        var rest := StripTags(s[j + 1..]);
        StripTagsTagFree(s[j + 1..]);
        assert r == [' '] + rest;
        forall i | 0 <= i < |r| ensures TagEnd(r[i..]).None? {
          if i > 0 {
            assert r[i..] == rest[i - 1..];
          }
        }
      case None =>
        var rest := StripTags(s[1..]);
        StripTagsTagFree(s[1..]);
        assert r == [s[0]] + rest;
        forall i | 0 <= i < |r| ensures TagEnd(r[i..]).None? {
          if i > 0 {
            assert r[i..] == rest[i - 1..];
          } else if s[0] == '<' && |s| >= 2 {
            if s[1] == '>' {
              assert rest[0] == '>';
            } else {
              assert '>' !in s[1..];
              assert rest == s[1..];
              assert r == s;
            }
          }
        }
    }
  }

  /** Cutting a string short cannot create a tag. */
  lemma TagEndPrefix(x: string, m: nat)
    requires m <= |x| && TagEnd(x).None?
    ensures TagEnd(x[..m]).None?
  {
    if TagEnd(x[..m]).Some? {
      var j := TagEnd(x[..m]).value;
      assert x[j] == '>';
    }
  }

  lemma TagFreeSlice(s: string, a: nat, b: nat)
    requires a <= b <= |s| && TagFree(s)
    ensures TagFree(s[a..b])
  {
    forall i | 0 <= i < b - a ensures TagEnd(s[a..b][i..]).None? {
      assert s[a..b][i..] == s[a + i..][..b - a - i];
      TagEndPrefix(s[a + i..], b - a - i);
    }
  }

  /** Appending text without angle brackets cannot create a tag. */
  lemma TagFreeAppend(s: string, y: string)
    requires TagFree(s) && '<' !in y && '>' !in y
    ensures TagFree(s + y)
  {
    forall i | 0 <= i < |s + y| ensures TagEnd((s + y)[i..]).None? {
      if i < |s| {
        var x := s[i..];
        var z := x + y;
        assert (s + y)[i..] == z;
        assert TagEnd(x).None?;
        if |z| >= 2 && z[0] == '<' && z[1] != '>' {
          forall k | 1 <= k < |z| ensures z[k] != '>' {
            if k >= |x| {
              assert z[k] == y[k - |x|];
            } else {
              assert x[1] == z[1];
            }
          }
        }
      } else {
        assert (s + y)[i] == y[i - |s|];
      }
    }
  }

  lemma TrimTagFree(s: string)
    requires TagFree(s)
    ensures TagFree(Trim(s))
  {
    TrimEndStartTagFree(s);
  }

  lemma TrimEndStartTagFree(s: string)
    requires TagFree(s)
    ensures TagFree(TrimEnd(TrimStart(s)))
  {
    var t := TrimStart(s);
    var k := |s| - |t|;
    TagFreeSlice(s, k, |s|);
    assert t == s[k..|s|];
    var r := TrimEnd(t);
    TagFreeSlice(t, 0, |r|);
    assert r == t[0..|r|];
  }

  lemma TakeTagFree(s: string, n: nat)
    requires TagFree(s)
    ensures TagFree(Take(s, n))
  {
    var r := Take(s, n);
    assert r == s[0..|r|];
    TagFreeSlice(s, 0, |r|);
  }

  /** A character before a tag-free text starts no tag unless it opens one
      that the text then closes. */
  lemma ConsTagFree(c: char, rest: string)
    requires TagFree(rest)
    requires c == '<' && |rest| >= 1 && rest[0] != '>' ==> '>' !in rest
    ensures TagFree([c] + rest)
  {
    var r := [c] + rest;
    forall i | 0 <= i < |r| ensures TagEnd(r[i..]).None? {
      if i > 0 {
        assert r[i..] == rest[i - 1..];
      } else if c == '<' && |r| >= 2 && r[1] != '>' {
        assert r[0..] == r;
        assert forall k :: 2 <= k < |r| ==> r[k] == rest[k - 1];
      }
    }
  }

  /** `/\s+/g` rewriting keeps a tag-free string tag-free. */
  lemma {:induction false} CollapseRunsTagFree(s: string)
    requires TagFree(s)
    ensures TagFree(CollapseRuns(s))
    decreases |s|
  {
    if s != [] {
      var n := SpaceRun(s);
      if n >= 1 {
        TagFreeSlice(s, n, |s|);
        assert s[n..|s|] == s[n..];
        CollapseRunsTagFree(s[n..]);
        ConsTagFree(' ', CollapseRuns(s[n..]));
      } else {
        TagFreeSlice(s, 1, |s|);
        assert s[1..|s|] == s[1..];
        CollapseRunsTagFree(s[1..]);
        var rest := CollapseRuns(s[1..]);
        if s[0] == '<' && |rest| >= 1 && rest[0] != '>' {
          assert s[..] == s[0..];
          assert TagEnd(s[0..]).None?;
          assert s[1] != '>';
          assert '>' !in s[1..];
        }
        ConsTagFree(s[0], rest);
      }
    }
  }


  /** ASCII `toLowerCase` of one character. */
  function LowerChar(c: char): char {
    if 'A' <= c <= 'Z' then (c as int + 32) as char else c
  }

  /** `s.toLowerCase()` on the ASCII letters. */
  function ToLower(s: string): (r: string)
    ensures |r| == |s|
    ensures forall i :: 0 <= i < |s| ==> r[i] == LowerChar(s[i])
  {
    seq(|s|, i requires 0 <= i < |s| => LowerChar(s[i]))
  }

  predicate StartsWith(s: string, prefix: string) {
    |prefix| <= |s| && s[..|prefix|] == prefix
  }

  /** `s.includes(needle)`. */
  predicate Contains(s: string, needle: string)
    decreases |s|
  {
    StartsWith(s, needle) || (|s| > 0 && Contains(s[1..], needle))
  }

  /** A needle found at position `k` is included. */
  lemma {:induction false} ContainsAt(s: string, needle: string, k: nat)
    requires k <= |s| && StartsWith(s[k..], needle)
    ensures Contains(s, needle)
    decreases k
  {
    if k == 0 {
      assert s[0..] == s;
    } else {
      assert s[1..][k - 1..] == s[k..];
      ContainsAt(s[1..], needle, k - 1);
    }
  }

  /** A text that includes a needle is at least as long as it. */
  lemma {:induction false} ContainsNoLonger(s: string, needle: string)
    ensures Contains(s, needle) ==> |needle| <= |s|
    decreases |s|
  {
    if !StartsWith(s, needle) && |s| > 0 {
      ContainsNoLonger(s[1..], needle);
    }
  }

  /** `s.split(c)[0]`: the text before the first `c`, or all of `s`. */
  function BeforeFirst(s: string, c: char): (r: string)
    ensures c !in r
    ensures StartsWith(s, r)
    ensures |r| < |s| ==> s[|r|] == c
  {
    match FindChar(s, c, 0)
    case Some(j) => s[..j]
    case None => s
  }

  /** The text before the first `c` of `a + [c] + b` is `a` when `a` holds
      no `c`. */
  lemma BeforeFirstSplit(a: string, c: char, b: string)
    requires c !in a
    ensures BeforeFirst(a + [c] + b, c) == a
  {
    var s := a + [c] + b;
    var r := BeforeFirst(s, c);
    assert s[..|a|] == a && s[|a|] == c;
  }

  /** Without a `c`, the text before the first `c` is all of `s`. */
  lemma BeforeFirstAbsent(s: string, c: char)
    requires c !in s
    ensures BeforeFirst(s, c) == s
  {
  }

  predicate IsDigit(c: char) {
    '0' <= c <= '9'
  }

  predicate AllDigits(s: string) {
    forall i :: 0 <= i < |s| ==> IsDigit(s[i])
  }

  function DigitChar(d: nat): (c: char)
    requires d < 10
    ensures IsDigit(c)
  {
    ('0' as int + d) as char
  }

  /** `parseInt(s, 10)` of a string of ASCII digits. */
  function DigitsValue(s: string): nat
    requires AllDigits(s)
  {
    if s == [] then 0
    else 10 * DigitsValue(s[..|s| - 1]) + (s[|s| - 1] as int - '0' as int)
  }

  /** `String(n)` / template interpolation of a natural number. */
  function NatToString(n: nat): (r: string)
    ensures |r| >= 1 && AllDigits(r)
    ensures r[0] == '0' ==> n == 0 && |r| == 1
  {
    if n < 10 then [DigitChar(n)]
    else NatToString(n / 10) + [DigitChar(n % 10)]
  }

  /** Reading back the decimal rendering gives the number. */
  lemma {:induction false} NatToStringRoundTrip(n: nat)
    ensures DigitsValue(NatToString(n)) == n
  {
    if n >= 10 {
      NatToStringRoundTrip(n / 10);
      var a := NatToString(n / 10);
      assert (a + [DigitChar(n % 10)])[..|a|] == a;
    }
  }

  /** The decimal rendering is injective. */
  lemma NatToStringInjective(m: nat, n: nat)
    requires NatToString(m) == NatToString(n)
    ensures m == n
  {
    NatToStringRoundTrip(m);
    NatToStringRoundTrip(n);
  }

  predicate IsAsciiAlnum(c: char) {
    ('a' <= c <= 'z') || ('A' <= c <= 'Z') || ('0' <= c <= '9')
  }

  /** `s.replace(/[^a-zA-Z0-9]/g, "")`. */
  function AlnumOnly(s: string): (r: string)
    ensures |r| <= |s|
    ensures forall i :: 0 <= i < |r| ==> IsAsciiAlnum(r[i])
    ensures forall c :: c in r <==> c in s && IsAsciiAlnum(c)
    ensures (forall i :: 0 <= i < |s| ==> IsAsciiAlnum(s[i])) ==> r == s
  {
    if s == [] then []
    else (if IsAsciiAlnum(s[0]) then [s[0]] else []) + AlnumOnly(s[1..])
  }

  /** `s.substring(0, n)`. */
  function Take(s: string, n: nat): (r: string)
    ensures |r| == if n < |s| then n else |s|
    ensures StartsWith(s, r)
  {
    if n < |s| then s[..n] else s
  }
}
