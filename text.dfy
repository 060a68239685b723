/** The string primitives of JavaScript that the new-tab page relies on:
    `trim`, `toLowerCase`/`toUpperCase`, `startsWith`, `includes` and `split`
    on a single-character separator. */
module Text {

  /** The ECMAScript WhiteSpace and LineTerminator code points, which is
      exactly the set `String.prototype.trim` strips from both ends. */
  predicate IsWhitespace(c: char) {
    || c == '\t' || c == '\n' || c == '\U{000B}' || c == '\U{000C}' || c == '\r'
    || c == ' ' || c == '\U{00A0}' || c == '\U{1680}'
    || ('\U{2000}' <= c <= '\U{200A}')
    || c == '\U{2028}' || c == '\U{2029}' || c == '\U{202F}' || c == '\U{205F}'
    || c == '\U{3000}' || c == '\U{FEFF}'
  }

  /** A string with no whitespace at either end: a fixed point of `trim`. */
  predicate IsTrimmed(s: string) {
    s == [] || (!IsWhitespace(s[0]) && !IsWhitespace(s[|s| - 1]))
  }

  /** Drops leading whitespace: the result is a suffix of `s`, everything
      dropped is whitespace, and the result does not start with whitespace. */
  function TrimStart(s: string): (r: string)
    ensures |r| <= |s| && r == s[|s| - |r|..]
    ensures forall i :: 0 <= i < |s| - |r| ==> IsWhitespace(s[i])
    ensures r == [] || !IsWhitespace(r[0])
    decreases |s|
  {
    if |s| > 0 && IsWhitespace(s[0]) then TrimStart(s[1..]) else s
  }

  /** Drops trailing whitespace: the result is a prefix of `s`, everything
      dropped is whitespace, and the result does not end with whitespace. */
  function TrimEnd(s: string): (r: string)
    ensures |r| <= |s| && r == s[..|r|]
    ensures forall i :: |r| <= i < |s| ==> IsWhitespace(s[i])
    ensures r == [] || !IsWhitespace(r[|r| - 1])
    decreases |s|
  {
    if |s| > 0 && IsWhitespace(s[|s| - 1]) then TrimEnd(s[..|s| - 1]) else s
  }

  /** `r` is `s` from index `a` on, with only whitespace cut off before
      and after it. */
  predicate IsStrippedSlice(s: string, a: int, r: string) {
    && 0 <= a <= |s| - |r| && r == s[a..a + |r|]
    && (forall i :: 0 <= i < a ==> IsWhitespace(s[i]))
    && (forall i :: a + |r| <= i < |s| ==> IsWhitespace(s[i]))
  }

  /** `s.trim()`: the result is the slice of `s` left after cutting
      whitespace from both ends, so it is trimmed; it is empty exactly when
      `s` is all whitespace, and a trimmed string is its own trim. */
  function Trim(s: string): (r: string)
    ensures IsTrimmed(r) && |r| <= |s|
    ensures exists a :: IsStrippedSlice(s, a, r)
    ensures r == [] <==> forall i :: 0 <= i < |s| ==> IsWhitespace(s[i])
    ensures IsTrimmed(s) ==> r == s
  {
    var t := TrimStart(s);
    var r := TrimEnd(t);
    assert r == [] ==> t == [];
    var a := |s| - |t|;
    assert IsStrippedSlice(s, a, r) by {
      forall i | a + |r| <= i < |s| ensures IsWhitespace(s[i]) {
        assert s[i] == t[i - a];
      }
    }
    r
  }

  /** A single blank glued to a trimmed string is cut off again by `trim`,
      on either side. */
  lemma {:induction false} TrimPadded(s: string)
    requires IsTrimmed(s)
    ensures Trim(s + " ") == s
    ensures Trim(" " + s) == s
  {
    if s == [] {
      assert TrimStart(" ") == TrimStart("");
      assert TrimEnd(" ") == TrimEnd("");
    } else {
      assert TrimStart(s + " ") == s + " ";
      assert (s + " ")[..|s + " "| - 1] == s;
      assert TrimStart(" " + s) == TrimStart(s) by { assert (" " + s)[1..] == s; }
    }
  }

  /** ASCII case mapping of one character, as `toLowerCase` does on ASCII. */
  function LowerChar(c: char): char {
    if 'A' <= c <= 'Z' then (c as int + 32) as char else c
  }

  /** ASCII case mapping of one character, as `toUpperCase` does on ASCII. */
  function UpperChar(c: char): char {
    if 'a' <= c <= 'z' then (c as int - 32) as char else c
  }

  /** Upper-casing a character leaves no lower-case letter, keeps a
      non-blank character non-blank, and changes it only up to case. */
  lemma UpperCharIsUpper(c: char)
    ensures !('a' <= UpperChar(c) <= 'z')
    ensures !IsWhitespace(c) ==> !IsWhitespace(UpperChar(c))
    ensures LowerChar(UpperChar(c)) == LowerChar(c)
  {
    if 'a' <= c <= 'z' {
      assert 'A' <= UpperChar(c) <= 'Z';
    }
  }

  /** `s.toLowerCase()`, restricted to ASCII letters. */
  function Lower(s: string): string {
    seq(|s|, i requires 0 <= i < |s| => LowerChar(s[i]))
  }

  /** The comparison `a.toLowerCase() === b.toLowerCase()`. */
  predicate EqualsIgnoreCase(a: string, b: string) {
    Lower(a) == Lower(b)
  }

  /** `s.startsWith(p)`. */
  predicate StartsWith(s: string, p: string) {
    |p| <= |s| && s[..|p|] == p
  }

  /** `s.includes(sub)`. */
  predicate Contains(s: string, sub: string)
    decreases |s|
  {
    StartsWith(s, sub) || (|s| > 0 && Contains(s[1..], sub))
  }

  /** A string contains only substrings no longer than itself. */
  lemma {:induction false} ContainsLength(s: string, sub: string)
    ensures Contains(s, sub) ==> |sub| <= |s|
    decreases |s|
  {
    if |s| > 0 {
      ContainsLength(s[1..], sub);
    }
  }

  /** What a string contains, it still contains with text glued to either
      end. */
  lemma ContainsWidened(p: string, s: string, q: string, sub: string)
    requires Contains(s, sub)
    ensures Contains(p + s + q, sub)
  {
    ContainsAppended(s, q, sub);
    ContainsPrepended(p, s + q, sub);
    assert p + (s + q) == p + s + q;
  }

  lemma {:induction false} ContainsAppended(s: string, q: string, sub: string)
    requires Contains(s, sub)
    ensures Contains(s + q, sub)
    decreases |s|
  {
    if StartsWith(s, sub) {
      assert (s + q)[..|sub|] == s[..|sub|];
    } else {
      ContainsAppended(s[1..], q, sub);
      assert (s + q)[1..] == s[1..] + q;
    }
  }

  lemma {:induction false} ContainsPrepended(p: string, s: string, sub: string)
    requires Contains(s, sub)
    ensures Contains(p + s, sub)
    decreases |p|
  {
    if p == [] {
      assert p + s == s;
    } else {
      ContainsPrepended(p[1..], s, sub);
      assert (p + s)[1..] == p[1..] + s;
    }
  }

  /** `s.split(sep)` for a one-character separator: the pieces between the
      occurrences of `sep`; there is always at least one piece. */
  function Split(s: string, sep: char): (parts: seq<string>)
    ensures |parts| >= 1
    ensures forall i :: 0 <= i < |parts| ==> sep !in parts[i]
    decreases |s|
  {
    if |s| == 0 then [""]
    else
      var rest := Split(s[1..], sep);
      if s[0] == sep then [""] + rest
      else [[s[0]] + rest[0]] + rest[1..]
  }

  /** `parts.join(sep)`. */
  function Join(parts: seq<string>, sep: char): string
    requires |parts| >= 1
    decreases |parts|
  {
    if |parts| == 1 then parts[0] else parts[0] + [sep] + Join(parts[1..], sep)
  }

  /** Splitting loses nothing: joining the pieces gives the string back. */
  lemma {:induction false} JoinSplit(s: string, sep: char)
    ensures Join(Split(s, sep), sep) == s
    decreases |s|
  {
    if |s| > 0 {
      var rest := Split(s[1..], sep);
      JoinSplit(s[1..], sep);
      if s[0] == sep {
        assert Split(s, sep)[1..] == rest;
      } else {
        var parts := Split(s, sep);
        if |rest| == 1 {
          assert parts == [[s[0]] + rest[0]];
        } else {
          assert parts[1..] == rest[1..];
          assert Join(rest, sep) == rest[0] + [sep] + Join(rest[1..], sep);
        }
        assert [s[0]] + s[1..] == s;
      }
    }
  }

  /** A string free of the separator is a single piece. */
  lemma {:induction false} SplitWithoutSeparator(s: string, sep: char)
    requires sep !in s
    ensures Split(s, sep) == [s]
    decreases |s|
  {
    if |s| > 0 {
      SplitWithoutSeparator(s[1..], sep);
      assert [s[0]] + s[1..] == s;
    }
  }

  /** The first separator ends the first piece. */
  lemma {:induction false} SplitAtFirstSeparator(a: string, sep: char, b: string)
    requires sep !in a
    ensures Split(a + [sep] + b, sep) == [a] + Split(b, sep)
    decreases |a|
  {
    var s := a + [sep] + b;
    if |a| == 0 {
      assert s[1..] == b;
    } else {
      assert s[1..] == a[1..] + [sep] + b;
      SplitAtFirstSeparator(a[1..], sep, b);
      assert [a[0]] + a[1..] == a;
    }
  }

  /** Joining pieces that are free of the separator and splitting again
      gives the pieces back. */
  lemma {:induction false} SplitJoin(parts: seq<string>, sep: char)
    requires |parts| >= 1
    requires forall i :: 0 <= i < |parts| ==> sep !in parts[i]
    ensures Split(Join(parts, sep), sep) == parts
    decreases |parts|
  {
    if |parts| == 1 {
      SplitWithoutSeparator(parts[0], sep);
    } else {
      SplitJoin(parts[1..], sep);
      SplitAtFirstSeparator(parts[0], sep, Join(parts[1..], sep));
      assert [parts[0]] + parts[1..] == parts;
    }
  }
}
