/**
  The Python string built-ins the store relies on, on `seq<char>`:
  `str.lstrip/rstrip/strip(chars)`, `str.strip()` (whitespace), `str.split(sep)`,
  `str.split(sep, maxsplit)`, `sep.join(parts)`, `''.join(parts)`, `endswith`,
  `startswith`, and `upper`/`lower` restricted to ASCII letters.
 */
module PyStr {

  import opened Wrappers

  /** Number of occurrences of `c` in `s`. */
  function Count(s: string, c: char): nat
  {
    if |s| == 0 then 0 else (if s[0] == c then 1 else 0) + Count(s[1..], c)
  }

  /** `s.lstrip(chars)`: the longest prefix made of characters of `chars` is dropped. */
  function LStrip(s: string, chars: string): string
    decreases |s|
  {
    if |s| > 0 && s[0] in chars then LStrip(s[1..], chars) else s
  }

  /** `s.rstrip(chars)`: the longest suffix made of characters of `chars` is dropped. */
  function RStrip(s: string, chars: string): string
    decreases |s|
  {
    if |s| > 0 && s[|s| - 1] in chars then RStrip(s[..|s| - 1], chars) else s
  }

  /**
    `s.strip(chars)`: characters of `chars` are removed from both ends. `chars` is a
    set of characters, not a prefix or suffix to remove.
   */
  function Strip(s: string, chars: string): string
  {
    RStrip(LStrip(s, chars), chars)
  }

  /** The characters Python's argument-less `str.strip()` removes, restricted to ASCII. */
  const Whitespace: string := [' ', '\t', '\n', '\r', '\U{000B}', '\U{000C}',
                               '\U{001C}', '\U{001D}', '\U{001E}', '\U{001F}']

  /** `s.strip()`. */
  function Trim(s: string): string
  {
    Strip(s, Whitespace)
  }

  /**
    `s.split(sep)` for a one-character separator, one character at a time: a separator
    starts a new piece, any other character joins the first piece of the rest.
   */
  function Split(s: string, sep: char): (r: seq<string>)
    ensures |r| >= 1
  {
    if |s| == 0 then [""]
    else
      var rest := Split(s[1..], sep);
      if s[0] == sep then [""] + rest else [[s[0]] + rest[0]] + rest[1..]
  }

  /**
    `s.split(sep, maxsplit)`: at most `maxsplit` separators are split at, left to right;
    the last piece keeps the rest of the text, separators included.
   */
  function SplitMax(s: string, sep: char, maxsplit: nat): (r: seq<string>)
    ensures |r| >= 1
  {
    if |s| == 0 then [""]
    else if s[0] == sep && maxsplit > 0 then [""] + SplitMax(s[1..], sep, maxsplit - 1)
    else
      var rest := SplitMax(s[1..], sep, maxsplit);
      [[s[0]] + rest[0]] + rest[1..]
  }

  /** `sep.join(parts)`. */
  function Join(parts: seq<string>, sep: char): string
  {
    if |parts| == 0 then ""
    else if |parts| == 1 then parts[0]
    else parts[0] + [sep] + Join(parts[1..], sep)
  }

  /** `''.join(parts)`. */
  function Concat(parts: seq<string>): string
  {
    if |parts| == 0 then "" else parts[0] + Concat(parts[1..])
  }

  /** `s.split(sep)[-1]`: the text after the last `sep`. */
  function LastField(s: string, sep: char): string
  {
    var parts := Split(s, sep);
    parts[|parts| - 1]
  }

  /** `s.endswith(suffix)`. */
  predicate EndsWith(s: string, suffix: string)
  {
    |suffix| <= |s| && s[|s| - |suffix|..] == suffix
  }

  /** `s.startswith(prefix)`. */
  predicate StartsWith(s: string, prefix: string)
  {
    |prefix| <= |s| && s[..|prefix|] == prefix
  }

  function UpperChar(c: char): char
  {
    if 'a' <= c <= 'z' then (c as int - 32) as char else c
  }

  function LowerChar(c: char): char
  {
    if 'A' <= c <= 'Z' then (c as int + 32) as char else c
  }

  /** `s.upper()` for ASCII letters. */
  function Upper(s: string): string
  {
    seq(|s|, i requires 0 <= i < |s| => UpperChar(s[i]))
  }

  /** `s.lower()` for ASCII letters. */
  function Lower(s: string): string
  {
    seq(|s|, i requires 0 <= i < |s| => LowerChar(s[i]))
  }

  // Properties of the built-ins above.

  /**
    `s.lstrip(chars)` is a suffix of `s`; what was dropped is made of characters of
    `chars`, and what is left does not start with one.
   */
  lemma {:induction false} LStripSpec(s: string, chars: string)
    ensures var r := LStrip(s, chars);
      && |r| <= |s| && r == s[|s| - |r|..]
      && (r != [] ==> r[0] !in chars)
      && (forall i :: 0 <= i < |s| - |r| ==> s[i] in chars)
    decreases |s|
  {
    if |s| > 0 && s[0] in chars {
      LStripSpec(s[1..], chars);
      var r := LStrip(s[1..], chars);
      assert forall i :: 1 <= i < |s| - |r| ==> s[i] == s[1..][i - 1];
    }
  }

  /**
    `s.rstrip(chars)` is a prefix of `s`; what was dropped is made of characters of
    `chars`, and what is left does not end with one.
   */
  lemma {:induction false} RStripSpec(s: string, chars: string)
    ensures var r := RStrip(s, chars);
      && |r| <= |s| && r == s[..|r|]
      && (r != [] ==> r[|r| - 1] !in chars)
      && (forall i :: |r| <= i < |s| ==> s[i] in chars)
    decreases |s|
  {
    if |s| > 0 && s[|s| - 1] in chars {
      RStripSpec(s[..|s| - 1], chars);
      var r := RStrip(s[..|s| - 1], chars);
      assert forall i :: |r| <= i < |s| - 1 ==> s[i] == s[..|s| - 1][i];
    }
  }

  /** `''.join(parts)` is empty exactly when every part is. */
  lemma {:induction false} ConcatEmpty(parts: seq<string>)
    ensures Concat(parts) == "" <==> forall k :: 0 <= k < |parts| ==> parts[k] == ""
  {
    if |parts| > 0 {
      ConcatEmpty(parts[1..]);
      assert forall k :: 1 <= k < |parts| ==> parts[k] == parts[1..][k - 1];
    }
  }

  /** `s.split(sep)` has one piece more than `s` has separators. */
  lemma {:induction false} SplitLength(s: string, sep: char)
    ensures |Split(s, sep)| == Count(s, sep) + 1
  {
    if |s| > 0 {
      SplitLength(s[1..], sep);
    }
  }

  /** No piece of `s.split(sep)` holds a separator. */
  lemma {:induction false} SplitPiecesHaveNoSep(s: string, sep: char)
    ensures forall k :: 0 <= k < |Split(s, sep)| ==> sep !in Split(s, sep)[k]
  {
    if |s| > 0 {
      SplitPiecesHaveNoSep(s[1..], sep);
      var rest := Split(s[1..], sep);
      var r := Split(s, sep);
      if s[0] == sep {
        assert forall k :: 1 <= k < |r| ==> r[k] == rest[k - 1];
      } else {
        assert forall k :: 1 <= k < |r| ==> r[k] == rest[k];
      }
    }
  }

  /** No piece of `s.split(sep, maxsplit)` but the last holds a separator. */
  lemma {:induction false} SplitMaxInnerPiecesHaveNoSep(s: string, sep: char, maxsplit: nat)
    ensures forall k :: 0 <= k < |SplitMax(s, sep, maxsplit)| - 1 ==> sep !in SplitMax(s, sep, maxsplit)[k]
  {
    if |s| > 0 {
      var r := SplitMax(s, sep, maxsplit);
      if s[0] == sep && maxsplit > 0 {
        var rest := SplitMax(s[1..], sep, maxsplit - 1);
        SplitMaxInnerPiecesHaveNoSep(s[1..], sep, maxsplit - 1);
        assert forall k :: 1 <= k < |r| ==> r[k] == rest[k - 1];
      } else if maxsplit == 0 {
        SplitMaxLength(s[1..], sep, 0);
      } else {
        var rest := SplitMax(s[1..], sep, maxsplit);
        SplitMaxInnerPiecesHaveNoSep(s[1..], sep, maxsplit);
        assert forall k :: 1 <= k < |r| ==> r[k] == rest[k];
      }
    }
  }

  /** The last piece of `s.split(sep, maxsplit)` holds a separator only when all `maxsplit` splits were made. */
  lemma {:induction false} SplitMaxLastPiece(s: string, sep: char, maxsplit: nat)
    ensures var r := SplitMax(s, sep, maxsplit);
      |r| <= maxsplit ==> sep !in r[|r| - 1]
  {
    if |s| > 0 {
      if s[0] == sep && maxsplit > 0 {
        SplitMaxLastPiece(s[1..], sep, maxsplit - 1);
      } else if maxsplit > 0 {
        SplitMaxLastPiece(s[1..], sep, maxsplit);
      }
    }
  }

  /** `s.split(sep, maxsplit)` splits at every separator, but at no more than `maxsplit`. */
  lemma {:induction false} SplitMaxLength(s: string, sep: char, maxsplit: nat)
    ensures |SplitMax(s, sep, maxsplit)| == (if Count(s, sep) < maxsplit then Count(s, sep) else maxsplit) + 1
  {
    if |s| > 0 {
      if s[0] == sep && maxsplit > 0 {
        SplitMaxLength(s[1..], sep, maxsplit - 1);
      } else {
        SplitMaxLength(s[1..], sep, maxsplit);
      }
    }
  }

  /**
    `s.split(sep, maxsplit)` and `s.split(sep)` agree on every piece before index
    `maxsplit`: a bounded split only changes what happens after the last split point.
   */
  lemma {:induction false} SplitMaxAgreesWithSplit(s: string, sep: char, maxsplit: nat, k: nat)
    requires k < maxsplit && k < |Split(s, sep)|
    ensures k < |SplitMax(s, sep, maxsplit)| && SplitMax(s, sep, maxsplit)[k] == Split(s, sep)[k]
  {
    if |s| > 0 {
      if s[0] == sep {
        if k > 0 {
          SplitMaxAgreesWithSplit(s[1..], sep, maxsplit - 1, k - 1);
        }
      } else {
        SplitMaxAgreesWithSplit(s[1..], sep, maxsplit, k);
      }
    }
  }

  /** Stripping twice with the same characters removes nothing more. */
  lemma StripIdempotent(s: string, chars: string)
    ensures Strip(Strip(s, chars), chars) == Strip(s, chars)
  {
    var t := Strip(s, chars);
    LStripSpec(s, chars);
    RStripSpec(LStrip(s, chars), chars);
    if t != [] {
      assert LStrip(t, chars) == t;
      RStripSpec(t, chars);
    }
  }

  /** Joining a part in front of at least one more part puts one `sep` between them. */
  lemma JoinCons(x: string, rest: seq<string>, sep: char)
    requires |rest| > 0
    ensures Join([x] + rest, sep) == x + [sep] + Join(rest, sep)
  {
    assert ([x] + rest)[1..] == rest;
  }

  /** A character in front of the first part is in front of the joined text. */
  lemma JoinGlue(c: char, parts: seq<string>, sep: char)
    requires |parts| > 0
    ensures Join([[c] + parts[0]] + parts[1..], sep) == [c] + Join(parts, sep)
  {
    if |parts| > 1 {
      JoinCons([c] + parts[0], parts[1..], sep);
      JoinCons(parts[0], parts[1..], sep);
      assert [parts[0]] + parts[1..] == parts;
    }
  }

  /** Joining the pieces of `s.split(sep)` with `sep` gives `s` back. */
  lemma {:induction false} JoinSplit(s: string, sep: char)
    ensures Join(Split(s, sep), sep) == s
  {
    if |s| > 0 {
      var rest := Split(s[1..], sep);
      JoinSplit(s[1..], sep);
      if s[0] == sep {
        JoinCons("", rest, sep);
      } else {
        JoinGlue(s[0], rest, sep);
      }
      assert [s[0]] + s[1..] == s;
    }
  }

  /** Joining the pieces of `s.split(sep, maxsplit)` with `sep` gives `s` back. */
  lemma {:induction false} JoinSplitMax(s: string, sep: char, maxsplit: nat)
    ensures Join(SplitMax(s, sep, maxsplit), sep) == s
  {
    if |s| > 0 {
      if s[0] == sep && maxsplit > 0 {
        JoinSplitMax(s[1..], sep, maxsplit - 1);
        JoinCons("", SplitMax(s[1..], sep, maxsplit - 1), sep);
      } else {
        JoinSplitMax(s[1..], sep, maxsplit);
        JoinGlue(s[0], SplitMax(s[1..], sep, maxsplit), sep);
      }
      assert [s[0]] + s[1..] == s;
    }
  }

  /**
    `s.split(sep)[-1]` is a suffix of `s` without `sep`: all of `s` when there is a single
    piece, and the text right after a `sep` otherwise.
   */
  lemma {:induction false} LastFieldIsSuffix(s: string, sep: char)
    ensures var r := LastField(s, sep);
      && sep !in r && |r| <= |s| && s[|s| - |r|..] == r
      && (|Split(s, sep)| == 1 ==> r == s)
      && (|Split(s, sep)| > 1 ==> |r| < |s| && s[|s| - |r| - 1] == sep)
  {
    if |s| > 0 {
      var t := s[1..];
      LastFieldIsSuffix(t, sep);
      var rest := Split(t, sep);
      var r := LastField(t, sep);
      if |rest| > 1 {
        assert LastField(s, sep) == r;
        assert s[|s| - |r|..] == t[|t| - |r|..];
        assert s[|s| - |r| - 1] == t[|t| - |r| - 1];
      } else if s[0] == sep {
        assert LastField(s, sep) == t;
        assert s[1..] == t;
      } else {
        assert LastField(s, sep) == [s[0]] + t;
        assert [s[0]] + t == s;
      }
    }
  }

  /** The text after a `sep` that is followed by no other `sep` is `s.split(sep)[-1]`. */
  lemma LastFieldAfter(p: string, sep: char, m: string)
    requires sep !in m
    ensures LastField(p + [sep] + m, sep) == m
  {
    var s := p + [sep] + m;
    LastFieldIsSuffix(s, sep);
    var r := LastField(s, sep);
    assert s[|p|] == sep;
    assert forall j :: |s| - |r| <= j < |s| ==> s[j] == r[j - (|s| - |r|)];
    assert |r| <= |m|;
    assert forall j :: |s| - |m| <= j < |s| ==> s[j] == m[j - (|s| - |m|)];
    assert |r| >= |m|;
    assert s[|s| - |m|..] == m;
  }

  /** Lower-casing forgets a previous upper-casing. */
  lemma LowerUpper(s: string)
    ensures Lower(Upper(s)) == Lower(s)
  {
    assert forall i :: 0 <= i < |s| ==> LowerChar(UpperChar(s[i])) == LowerChar(s[i]);
  }

  /** `lstrip` drops a prefix made of `chars` and stops at the first character outside it. */
  lemma {:induction false} LStripDrops(p: string, s: string, chars: string)
    requires forall i :: 0 <= i < |p| ==> p[i] in chars
    requires |s| > 0 ==> s[0] !in chars
    ensures LStrip(p + s, chars) == s
    decreases |p|
  {
    if |p| > 0 {
      assert (p + s)[1..] == p[1..] + s;
      LStripDrops(p[1..], s, chars);
    } else {
      assert p + s == s;
    }
  }

  /** `rstrip` drops a suffix made of `chars` and stops at the last character outside it. */
  lemma {:induction false} RStripDrops(s: string, p: string, chars: string)
    requires forall i :: 0 <= i < |p| ==> p[i] in chars
    requires |s| > 0 ==> s[|s| - 1] !in chars
    ensures RStrip(s + p, chars) == s
    decreases |p|
  {
    if |p| > 0 {
      assert (s + p)[..|s + p| - 1] == s + p[..|p| - 1];
      RStripDrops(s, p[..|p| - 1], chars);
    } else {
      assert s + p == s;
    }
  }

  /** A suffix of `s` is a suffix of anything ending in `s`. */
  lemma EndsWithAppend(p: string, s: string, suffix: string)
    requires EndsWith(s, suffix)
    ensures EndsWith(p + s, suffix)
  {
    assert (p + s)[|p + s| - |suffix|..] == s[|s| - |suffix|..];
  }

  /** `s.split(sep)[-1]` is empty exactly when `s` is empty or ends in `sep`. */
  lemma LastFieldEmpty(s: string, sep: char)
    ensures LastField(s, sep) == "" <==> |s| == 0 || s[|s| - 1] == sep
  {
    LastFieldIsSuffix(s, sep);
    if |s| > 0 && s[|s| - 1] == sep {
      assert s == s[..|s| - 1] + [sep] + "";
      LastFieldAfter(s[..|s| - 1], sep, "");
    }
  }
}
