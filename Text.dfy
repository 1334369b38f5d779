/** String helpers with the meaning the converter's Python code gives them:
    `str.strip()`, `str.split(sep)`, `str.replace(old, new)` with a
    one-character `old`, and character counting. */
module Text {

  /** Python's `str.isspace()`, which is also what the regex class `\s`
      matches in a `str` pattern: the ASCII whitespace and separator controls
      plus the Unicode space characters. */
  predicate IsSpace(c: char) {
    c == ' ' || ('\t' <= c <= '\r') || ('\U{1c}' <= c <= '\U{1f}')
    || c == '\U{85}' || c == '\U{a0}' || c == '\U{1680}'
    || ('\U{2000}' <= c <= '\U{200a}') || c == '\U{2028}' || c == '\U{2029}'
    || c == '\U{202f}' || c == '\U{205f}' || c == '\U{3000}'
  }

  /** Number of occurrences of `c` in `s`. */
  function Count(s: string, c: char): (n: nat)
    ensures n <= |s|
  {
    if s == [] then 0 else (if s[0] == c then 1 else 0) + Count(s[1..], c)
  }

  /** `c` is counted zero times exactly when it does not occur. */
  lemma {:induction false} CountZero(s: string, c: char)
    ensures Count(s, c) == 0 <==> c !in s
  {
    if s != [] {
      CountZero(s[1..], c);
      assert s == [s[0]] + s[1..];
    }
  }

  lemma {:induction false} CountConcat(a: string, b: string, c: char)
    ensures Count(a + b, c) == Count(a, c) + Count(b, c)
  {
    if a != [] {
      assert (a + b)[0] == a[0];
      assert (a + b)[1..] == a[1..] + b;
      CountConcat(a[1..], b, c);
    } else {
      assert a + b == b;
    }
  }

  lemma {:induction false} CountSplitAt(s: string, i: nat, c: char)
    requires i <= |s|
    ensures Count(s, c) == Count(s[..i], c) + Count(s[i..], c)
  {
    assert s == s[..i] + s[i..];
    CountConcat(s[..i], s[i..], c);
  }

  /** Leading whitespace removed: what is left does not start with
      whitespace (`TrimStartSuffix` says what was removed). */
  function TrimStart(s: string): (r: string)
    ensures |r| <= |s|
    ensures r == [] || !IsSpace(r[0])
  {
    if s != [] && IsSpace(s[0]) then TrimStart(s[1..]) else s
  }

  /** What `TrimStart` keeps is a suffix, and what it removes is whitespace. */
  lemma {:induction false} TrimStartSuffix(s: string)
    ensures TrimStart(s) == s[|s| - |TrimStart(s)|..]
    ensures forall k :: 0 <= k < |s| - |TrimStart(s)| ==> IsSpace(s[k])
  {
    if s != [] && IsSpace(s[0]) {
      TrimStartSuffix(s[1..]);
    }
  }

  /** Trailing whitespace removed: what is left does not end with
      whitespace (`TrimEndPrefix` says what was removed). */
  function TrimEnd(s: string): (r: string)
    ensures |r| <= |s|
    ensures r == [] || !IsSpace(r[|r| - 1])
  {
    if s != [] && IsSpace(s[|s| - 1]) then TrimEnd(s[..|s| - 1]) else s
  }

  /** What `TrimEnd` keeps is a prefix, and what it removes is whitespace. */
  lemma {:induction false} TrimEndPrefix(s: string)
    ensures TrimEnd(s) == s[..|TrimEnd(s)|]
    ensures forall k :: |TrimEnd(s)| <= k < |s| ==> IsSpace(s[k])
  {
    if s != [] && IsSpace(s[|s| - 1]) {
      TrimEndPrefix(s[..|s| - 1]);
    }
  }

  /** A string with no whitespace at either end. */
  predicate IsStripped(s: string) {
    s == [] || (!IsSpace(s[0]) && !IsSpace(s[|s| - 1]))
  }

  /** Python's `str.strip()` with no argument. */
  function Strip(s: string): (r: string)
    ensures IsStripped(r)
    ensures |r| <= |s|
  {
    var t := TrimStart(s);
    TrimEndPrefix(t);
    TrimEnd(t)
  }

  /** `Strip` keeps a slice of the text and removes only whitespace around
      it. */
  lemma {:induction false} StripSlice(s: string)
    ensures var a := |s| - |TrimStart(s)|;
      a + |Strip(s)| <= |s| && Strip(s) == s[a..a + |Strip(s)|]
      && (forall k :: 0 <= k < a ==> IsSpace(s[k]))
      && (forall k :: a + |Strip(s)| <= k < |s| ==> IsSpace(s[k]))
  {
    TrimStartSuffix(s);
    StripInner(s);
    StripTrailing(s);
  }

  /** What `Strip` keeps is the slice of the text after the leading
      whitespace. */
  lemma {:induction false} StripInner(s: string)
    ensures var a := |s| - |TrimStart(s)|;
      a + |Strip(s)| <= |s| && Strip(s) == s[a..a + |Strip(s)|]
  {
    var t := TrimStart(s);
    var a := |s| - |t|;
    var r := TrimEnd(t);
    assert Strip(s) == r;
    assert t == s[a..] by {
      TrimStartSuffix(s);
    }
    assert r == t[..|r|] by {
      TrimEndPrefix(t);
    }
    assert t[..|r|] == s[a..a + |r|];
  }

  /** After what `Strip` keeps, the text holds only whitespace. */
  lemma {:induction false} StripTrailing(s: string)
    ensures var a := |s| - |TrimStart(s)|;
      forall k :: a + |Strip(s)| <= k < |s| ==> IsSpace(s[k])
  {
    var t := TrimStart(s);
    var a := |s| - |t|;
    var r := TrimEnd(t);
    assert Strip(s) == r;
    assert t == s[a..] by {
      TrimStartSuffix(s);
    }
    TrimEndPrefix(t);
    forall k | a + |r| <= k < |s|
      ensures IsSpace(s[k])
    {
      assert s[k] == t[k - a];
    }
  }

  /** Stripping never introduces a character. */
  lemma {:induction false} StripKeepsOut(s: string, c: char)
    requires c !in s
    ensures c !in Strip(s)
  {
    var a := |s| - |TrimStart(s)|;
    var r := Strip(s);
    StripInner(s);
    forall k | 0 <= k < |r|
      ensures r[k] != c
    {
      assert r[k] == s[a + k];
    }
  }

  /** A string without outer whitespace is its own strip. */
  lemma {:induction false} StripStripped(s: string)
    requires IsStripped(s)
    ensures Strip(s) == s
  {
    assert TrimStart(s) == s;
    assert TrimEnd(s) == s;
  }

  /** Stripping twice is stripping once. */
  lemma {:induction false} StripIdempotent(s: string)
    ensures Strip(Strip(s)) == Strip(s)
  {
    var r := Strip(s);
    assert TrimStart(r) == r;
    assert TrimEnd(r) == r;
  }

  /** Python's `s.split(sep)` for a one-character separator: always at least
      one part, and one more part than there are separators. */
  function Split(s: string, sep: char): (parts: seq<string>)
    ensures |parts| == Count(s, sep) + 1
    decreases |s|
  {
    if s == [] then [""]
    else
      var rest := Split(s[1..], sep);
      if s[0] == sep then [""] + rest
      else [[s[0]] + rest[0]] + rest[1..]
  }

  /** No part of a split holds the separator. */
  lemma {:induction false} SplitPartsFree(s: string, sep: char)
    ensures forall k :: 0 <= k < |Split(s, sep)| ==> sep !in Split(s, sep)[k]
    decreases |s|
  {
    if s != [] {
      SplitPartsFree(s[1..], sep);
      var rest := Split(s[1..], sep);
      if s[0] != sep {
        assert sep !in [s[0]] + rest[0];
      }
    }
  }

  /** `sep.join(parts)`, the inverse of `Split`. */
  function Join(parts: seq<string>, sep: char): string
    requires |parts| >= 1
  {
    if |parts| == 1 then parts[0] else parts[0] + [sep] + Join(parts[1..], sep)
  }

  /** Splitting loses nothing: joining the parts gives back the text. */
  lemma {:induction false} JoinSplit(s: string, sep: char)
    ensures Join(Split(s, sep), sep) == s
  {
    if s != [] {
      var rest := Split(s[1..], sep);
      JoinSplit(s[1..], sep);
      if s[0] == sep {
        assert Split(s, sep) == [""] + rest;
        assert ([""] + rest)[1..] == rest;
      } else {
        var parts := Split(s, sep);
        if |rest| == 1 {
          assert parts == [[s[0]] + rest[0]];
        } else {
          assert parts[1..] == rest[1..];
          assert Join(parts, sep) == [s[0]] + rest[0] + [sep] + Join(rest[1..], sep);
        }
      }
    }
  }

  /** Splitting a join of separator-free parts gives back the parts. */
  lemma {:induction false} SplitJoin(parts: seq<string>, sep: char)
    requires |parts| >= 1
    requires forall k :: 0 <= k < |parts| ==> sep !in parts[k]
    ensures Split(Join(parts, sep), sep) == parts
  {
    if |parts| == 1 {
      SplitNoSep(parts[0], sep);
    } else {
      SplitJoin(parts[1..], sep);
      SplitAfterFree(parts[0], Join(parts[1..], sep), sep);
      assert [parts[0]] + parts[1..] == parts;
    }
  }

  lemma {:induction false} SplitNoSep(s: string, sep: char)
    requires sep !in s
    ensures Split(s, sep) == [s]
  {
    if s != [] {
      SplitNoSep(s[1..], sep);
      assert [s[0]] + s[1..] == s;
    }
  }

  /** A separator-free prefix glued before a separator becomes the first part. */
  lemma {:induction false} SplitAfterFree(p: string, rest: string, sep: char)
    requires sep !in p
    ensures Split(p + [sep] + rest, sep) == [p] + Split(rest, sep)
    decreases |p|
  {
    if p != [] {
      var s := p + [sep] + rest;
      assert s[0] == p[0] && s[1..] == p[1..] + [sep] + rest;
      SplitAfterFree(p[1..], rest, sep);
      var tail := Split(s[1..], sep);
      assert tail == [p[1..]] + Split(rest, sep);
      assert Split(s, sep) == [[p[0]] + tail[0]] + tail[1..];
      assert [p[0]] + p[1..] == p;
      assert tail[1..] == Split(rest, sep);
    } else {
      assert p + [sep] + rest == [sep] + rest;
      assert ([sep] + rest)[1..] == rest;
    }
  }

  /** `s.replace(c, rep)` for a one-character `c`. */
  function ReplaceChar(s: string, c: char, rep: string): string
  {
    if s == [] then [] else (if s[0] == c then rep else [s[0]]) + ReplaceChar(s[1..], c, rep)
  }

  /** A text without `c` is left as it is. */
  lemma {:induction false} ReplaceCharNone(s: string, c: char, rep: string)
    requires c !in s
    ensures ReplaceChar(s, c, rep) == s
  {
    if s != [] {
      var t := s[1..];
      assert c !in t by {
        assert forall k :: 0 <= k < |t| ==> t[k] == s[k + 1];
      }
      ReplaceCharNone(t, c, rep);
      assert s == [s[0]] + t;
    }
  }

  /** Replacing works piece by piece. */
  lemma {:induction false} ReplaceCharConcat(a: string, b: string, c: char, rep: string)
    ensures ReplaceChar(a + b, c, rep) == ReplaceChar(a, c, rep) + ReplaceChar(b, c, rep)
  {
    if a == [] {
      assert a + b == b;
    } else {
      var t := (a + b)[1..];
      assert (a + b)[0] == a[0] && t == a[1..] + b;
      ReplaceCharConcat(a[1..], b, c, rep);
      var h := if a[0] == c then rep else [a[0]];
      assert ReplaceChar(a + b, c, rep) == h + ReplaceChar(t, c, rep);
      assert ReplaceChar(a, c, rep) == h + ReplaceChar(a[1..], c, rep);
    }
  }

  /** A single occurrence of `c` is replaced where it stands. */
  lemma {:induction false} ReplaceOnce(p: string, q: string, c: char, rep: string)
    requires c !in p && c !in q
    ensures ReplaceChar(p + [c] + q, c, rep) == p + rep + q
  {
    var head := p + [c];
    ReplaceCharNone(p, c, rep);
    ReplaceCharNone(q, c, rep);
    ReplaceCharConcat(head, q, c, rep);
    ReplaceCharConcat(p, [c], c, rep);
    var mid := ReplaceChar([c], c, rep);
    assert mid == rep + ReplaceChar([], c, rep);
    assert mid == rep;
    assert ReplaceChar(head, c, rep) == p + rep;
  }

  /** Replacing `c` by a text free of `c` leaves no `c`, and leaves the count
      of every character that is neither `c` nor in `rep` as it was. */
  lemma {:induction false} ReplaceCharCount(s: string, c: char, rep: string, x: char)
    requires x != c && x !in rep
    ensures Count(ReplaceChar(s, c, rep), x) == Count(s, x)
    ensures c !in rep ==> c !in ReplaceChar(s, c, rep)
  {
    CountZero(rep, x);
    if s != [] {
      ReplaceCharCount(s[1..], c, rep, x);
      CountConcat(if s[0] == c then rep else [s[0]], ReplaceChar(s[1..], c, rep), x);
    }
  }

  /** Replacing never brings in a character absent from both the text and
      the replacement. */
  lemma {:induction false} ReplaceCharAbsent(s: string, c: char, rep: string, x: char)
    requires x !in s && x !in rep
    ensures x !in ReplaceChar(s, c, rep)
  {
    if s != [] {
      assert x !in s[1..] by {
        assert forall k :: 0 <= k < |s[1..]| ==> s[1..][k] == s[k + 1];
      }
      ReplaceCharAbsent(s[1..], c, rep, x);
    }
  }

  /** `s.replace(c, '')`: every `c` deleted, everything else kept in order. */
  function DeleteChar(s: string, c: char): string
  {
    if s == [] then [] else (if s[0] == c then [] else [s[0]]) + DeleteChar(s[1..], c)
  }

  /** Deleting leaves no `c`, changes nothing in a text without one, and
      shortens the text by the number of `c`s it held. */
  lemma {:induction false} DeleteCharFacts(s: string, c: char)
    ensures c !in DeleteChar(s, c)
    ensures c !in s ==> DeleteChar(s, c) == s
    ensures |DeleteChar(s, c)| == |s| - Count(s, c)
  {
    if s != [] {
      var t := s[1..];
      DeleteCharFacts(t, c);
      assert c !in s ==> c !in t by {
        assert forall k :: 0 <= k < |t| ==> t[k] == s[k + 1];
      }
      assert s == [s[0]] + t;
    }
  }

  /** Deleting works piece by piece. */
  lemma {:induction false} DeleteCharConcat(a: string, b: string, c: char)
    ensures DeleteChar(a + b, c) == DeleteChar(a, c) + DeleteChar(b, c)
  {
    if a == [] {
      assert a + b == b;
    } else {
      var t := (a + b)[1..];
      assert (a + b)[0] == a[0] && t == a[1..] + b;
      DeleteCharConcat(a[1..], b, c);
      var h := if a[0] == c then [] else [a[0]];
      assert DeleteChar(a + b, c) == h + DeleteChar(t, c);
      assert DeleteChar(a, c) == h + DeleteChar(a[1..], c);
    }
  }

  /** A single trailing `c` is deleted. */
  lemma {:induction false} DeleteLast(p: string, c: char)
    requires c !in p
    ensures DeleteChar(p + [c], c) == p
  {
    DeleteCharConcat(p, [c], c);
    DeleteCharFacts(p, c);
    assert DeleteChar([c], c) == [] + DeleteChar([], c);
  }

  /** Deleting never brings in a character. */
  lemma {:induction false} DeleteCharAbsent(s: string, c: char, x: char)
    requires x !in s
    ensures x !in DeleteChar(s, c)
  {
    if s != [] {
      assert x !in s[1..] by {
        assert forall k :: 0 <= k < |s[1..]| ==> s[1..][k] == s[k + 1];
      }
      DeleteCharAbsent(s[1..], c, x);
    }
  }

  /** A single occurrence of `c` is deleted where it stands. */
  lemma {:induction false} DeleteOnce(p: string, q: string, c: char)
    requires c !in p && c !in q
    ensures DeleteChar(p + [c] + q, c) == p + q
  {
    DeleteCharConcat(p + [c], q, c);
    DeleteLast(p, c);
    DeleteCharFacts(q, c);
  }

  lemma {:induction false} DeleteCharCount(s: string, c: char, x: char)
    requires x != c
    ensures Count(DeleteChar(s, c), x) == Count(s, x)
  {
    if s != [] {
      DeleteCharCount(s[1..], c, x);
      CountConcat(if s[0] == c then [] else [s[0]], DeleteChar(s[1..], c), x);
    }
  }
}
