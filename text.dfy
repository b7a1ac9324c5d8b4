/**
 * The handful of JavaScript string primitives the engine uses, over `string = seq<char>`:
 * `trim`, `toLowerCase`, `includes`, `startsWith`, `split("\n")`, `join("\n")` and
 * `split(/\s+/)`.
 */
module Text {

  /** ECMAScript's WhiteSpace and LineTerminator code points: what `\s` and `trim` treat as blank. */
  predicate IsWhitespace(c: char)
  {
    c == '\t' || c == '\n' || c == '\U{B}' || c == '\U{C}' || c == '\r' || c == ' ' ||
    c == '\U{A0}' || c == '\U{1680}' || ('\U{2000}' <= c <= '\U{200A}') ||
    c == '\U{2028}' || c == '\U{2029}' || c == '\U{202F}' || c == '\U{205F}' ||
    c == '\U{3000}' || c == '\U{FEFF}'
  }

  predicate IsBlank(s: string)
  {
    forall i :: 0 <= i < |s| ==> IsWhitespace(s[i])
  }

  /** `s.trimStart()`: the suffix left after the leading whitespace run. */
  function TrimStart(s: string): (r: string)
    ensures |r| <= |s| && r == s[|s| - |r|..]
    ensures IsBlank(s[..|s| - |r|])
    ensures r == [] || !IsWhitespace(r[0])
  {
    if s != [] && IsWhitespace(s[0]) then
      var r := TrimStart(s[1..]);
      assert s[1..][..|s[1..]| - |r|] == s[1..|s| - |r|];
      r
    else s
  }

  /** `s.trimEnd()`: the prefix left after the trailing whitespace run. */
  function TrimEnd(s: string): (r: string)
    ensures |r| <= |s| && r == s[..|r|]
    ensures IsBlank(s[|r|..])
    ensures r == [] || !IsWhitespace(r[|r| - 1])
  {
    if s != [] && IsWhitespace(s[|s| - 1]) then
      var t := s[..|s| - 1];
      var r := TrimEnd(t);
      assert IsBlank(s[|r|..]) by {
        forall i | 0 <= i < |s| - |r| ensures IsWhitespace(s[|r|..][i]) {
          if i < |t| - |r| { assert s[|r|..][i] == t[|r|..][i]; }
        }
      }
      r
    else s
  }

  /** `s.trim()`. */
  function Trim(s: string): string
  {
    TrimEnd(TrimStart(s))
  }

  /** A string trims to the empty string exactly when every character of it is whitespace. */
  lemma TrimEmptyIffBlank(s: string)
    ensures Trim(s) == [] <==> IsBlank(s)
  {
    var t := TrimStart(s);
    if IsBlank(s) {
      assert IsBlank(t);
    }
    if Trim(s) == [] {
      assert IsBlank(t);
      assert t == [];
      assert s == s[..|s| - |t|];
    }
  }

  /** ASCII `toLowerCase` on one character; every other character is left as it is. */
  function LowerChar(c: char): char
  {
    if 'A' <= c <= 'Z' then (c as int + 32) as char else c
  }

  /** A lowered character is never a capital letter. */
  lemma LowerCharNotCapital(c: char)
    ensures !('A' <= LowerChar(c) <= 'Z')
  {
  }

  /** `s.toLowerCase()`, restricted to the ASCII mapping. */
  function Lower(s: string): (r: string)
    ensures |r| == |s|
    ensures forall i :: 0 <= i < |s| ==> r[i] == LowerChar(s[i])
  {
    if s == [] then [] else [LowerChar(s[0])] + Lower(s[1..])
  }

  /** `s.startsWith(t)`. */
  predicate StartsWith(s: string, t: string)
  {
    |t| <= |s| && s[..|t|] == t
  }

  /** `t` occurs in `s` starting at position `i`. */
  predicate OccursAt(s: string, t: string, i: nat)
  {
    i + |t| <= |s| && s[i..i + |t|] == t
  }

  /** `s.includes(t)`: `t` occurs in `s` at some position. */
  predicate Contains(s: string, t: string)
  {
    exists i: nat | i <= |s| :: OccursAt(s, t, i)
  }

  lemma StartsWithContains(s: string, t: string)
    requires StartsWith(s, t)
    ensures Contains(s, t)
  {
    assert OccursAt(s, t, 0);
  }

  /** `s.split("\n")`: the pieces between newline characters, always at least one. */
  function SplitLines(s: string): (r: seq<string>)
    ensures |r| >= 1
    ensures forall k :: 0 <= k < |r| ==> '\n' !in r[k]
  {
    if s == [] then [""]
    else
      var rest := SplitLines(s[1..]);
      if s[0] == '\n' then [""] + rest
      else [[s[0]] + rest[0]] + rest[1..]
  }

  /** `lines.join("\n")`. */
  function JoinLines(lines: seq<string>): string
  {
    if |lines| == 0 then ""
    else if |lines| == 1 then lines[0]
    else lines[0] + "\n" + JoinLines(lines[1..])
  }

  lemma {:induction false} SplitLinesPrefix(a: string, rest: string)
    requires '\n' !in a
    ensures SplitLines(a + rest) == [a + SplitLines(rest)[0]] + SplitLines(rest)[1..]
    decreases |a|
  {
    if a != [] {
      assert (a + rest)[1..] == a[1..] + rest;
      assert '\n' !in a[1..] by {
        forall k | 0 <= k < |a[1..]| ensures a[1..][k] != '\n' { assert a[1..][k] == a[k + 1]; }
      }
      SplitLinesPrefix(a[1..], rest);
      assert [a[0]] + (a[1..] + SplitLines(rest)[0]) == a + SplitLines(rest)[0];
    } else {
      var r := SplitLines(rest);
      assert a + rest == rest;
      assert a + r[0] == r[0];
      assert r == [r[0]] + r[1..];
    }
  }

  /** Splitting what `join("\n")` produced gives back the lines, provided none holds a newline. */
  lemma {:induction false} SplitJoinLines(lines: seq<string>)
    requires |lines| >= 1
    requires forall k :: 0 <= k < |lines| ==> '\n' !in lines[k]
    ensures SplitLines(JoinLines(lines)) == lines
  {
    if |lines| == 1 {
      SplitLinesPrefix(lines[0], "");
      assert lines[0] + "" == lines[0];
    } else {
      var tail := JoinLines(lines[1..]);
      SplitJoinLines(lines[1..]);
      assert lines[0] + "\n" + tail == lines[0] + ("\n" + tail);
      SplitLinesPrefix(lines[0], "\n" + tail);
      assert ("\n" + tail)[1..] == tail;
      assert SplitLines("\n" + tail) == [""] + lines[1..];
      assert lines[0] + "" == lines[0];
      assert lines == [lines[0]] + lines[1..];
    }
  }

  /**
   * `s.split(/\s+/)`: the pieces between maximal whitespace runs. A leading or trailing run
   * yields an empty first or last piece, and the empty string yields `[""]`.
   */
  function SplitWords(s: string): (r: seq<string>)
    ensures |r| >= 1
    decreases |s|
  {
    if s == [] then [""]
    else if IsWhitespace(s[0]) then
      assert TrimStart(s) == TrimStart(s[1..]);
      [""] + SplitWords(TrimStart(s))
    else
      var rest := SplitWords(s[1..]);
      [[s[0]] + rest[0]] + rest[1..]
  }

  /** No piece of `split(/\s+/)` holds whitespace. */
  lemma {:induction false} SplitWordsNoWhitespace(s: string)
    ensures forall k, i :: 0 <= k < |SplitWords(s)| && 0 <= i < |SplitWords(s)[k]| ==> !IsWhitespace(SplitWords(s)[k][i])
    decreases |s|
  {
    if s != [] {
      if IsWhitespace(s[0]) {
        SplitWordsNoWhitespace(TrimStart(s));
      } else {
        SplitWordsNoWhitespace(s[1..]);
        var rest := SplitWords(s[1..]);
        assert forall i :: 0 < i < |[s[0]] + rest[0]| ==> ([s[0]] + rest[0])[i] == rest[0][i - 1];
      }
    }
  }

  /** Every character of every piece of `split(/\s+/)` comes from the split string. */
  lemma {:induction false} SplitWordsChars(s: string)
    ensures forall k, i :: 0 <= k < |SplitWords(s)| && 0 <= i < |SplitWords(s)[k]| ==> SplitWords(s)[k][i] in s
    decreases |s|
  {
    if s != [] {
      if IsWhitespace(s[0]) {
        var t := TrimStart(s);
        SplitWordsChars(t);
        assert forall c :: c in t ==> c in s;
      } else {
        SplitWordsChars(s[1..]);
        assert forall c :: c in s[1..] ==> c in s;
      }
    }
  }

  /** Character `i` of piece `k` is a character of `s`. */
  lemma SplitWordsCharAt(s: string, k: nat, i: nat)
    requires k < |SplitWords(s)| && i < |SplitWords(s)[k]|
    ensures SplitWords(s)[k][i] in s
  {
    SplitWordsChars(s);
  }


  /** A string without whitespace splits into itself alone. */
  lemma {:induction false} SplitWordsSingle(s: string)
    requires forall i :: 0 <= i < |s| ==> !IsWhitespace(s[i])
    ensures SplitWords(s) == [s]
  {
    if s != [] {
      SplitWordsSingle(s[1..]);
      assert [s[0]] + s[1..] == s;
    }
  }

  /** `words.join(" ")`. */
  function JoinWords(words: seq<string>): string
  {
    if |words| == 0 then ""
    else if |words| == 1 then words[0]
    else words[0] + " " + JoinWords(words[1..])
  }

  /** A non-empty string without whitespace: what `split(/\s+/)` yields between two runs. */
  predicate IsWord(w: string)
  {
    w != [] && forall i :: 0 <= i < |w| ==> !IsWhitespace(w[i])
  }

  lemma {:induction false} SplitWordsPrefix(a: string, rest: string)
    requires forall i :: 0 <= i < |a| ==> !IsWhitespace(a[i])
    ensures SplitWords(a + rest) == [a + SplitWords(rest)[0]] + SplitWords(rest)[1..]
    decreases |a|
  {
    if a != [] {
      var s := a + rest;
      var t := SplitWords(rest);
      assert s[0] == a[0] && s[1..] == a[1..] + rest;
      assert forall i :: 0 <= i < |a[1..]| ==> a[1..][i] == a[i + 1];
      SplitWordsPrefix(a[1..], rest);
      var r := SplitWords(s[1..]);
      assert SplitWords(s) == [[a[0]] + r[0]] + r[1..];
      assert r[0] == a[1..] + t[0] && r[1..] == t[1..];
      assert [a[0]] + (a[1..] + t[0]) == a + t[0];
    } else {
      var r := SplitWords(rest);
      assert a + rest == rest;
      assert a + r[0] == r[0];
      assert r == [r[0]] + r[1..];
    }
  }

  /** Joined words start with the first word's first character and end with the last word's last. */
  lemma {:induction false} JoinWordsEnds(words: seq<string>)
    requires |words| >= 1 && forall k :: 0 <= k < |words| ==> IsWord(words[k])
    ensures var s := JoinWords(words); var last := words[|words| - 1];
      IsWord(words[0]) && IsWord(last) && s != [] && s[0] == words[0][0] && s[|s| - 1] == last[|last| - 1]
  {
    if |words| > 1 {
      var tail := JoinWords(words[1..]);
      JoinWordsEnds(words[1..]);
      assert JoinWords(words) == words[0] + " " + tail;
    }
  }

  /** Every character of joined words is the separating space or a character of some word. */
  lemma {:induction false} JoinWordsChars(words: seq<string>, c: char)
    requires c in JoinWords(words)
    ensures c == ' ' || exists k :: 0 <= k < |words| && c in words[k]
  {
    if |words| > 1 && c != ' ' && c !in words[0] {
      var tail := JoinWords(words[1..]);
      assert c in tail by {
        assert JoinWords(words) == words[0] + " " + tail;
      }
      JoinWordsChars(words[1..], c);
      var k :| 0 <= k < |words[1..]| && c in words[1..][k];
      assert words[1..][k] == words[k + 1];
    }
  }

  /** Splitting words joined by single spaces gives the words back. */
  lemma {:induction false} SplitJoinWords(words: seq<string>)
    requires |words| >= 1 && forall k :: 0 <= k < |words| ==> IsWord(words[k])
    ensures SplitWords(JoinWords(words)) == words
  {
    if |words| == 1 {
      SplitWordsSingle(words[0]);
    } else {
      var tail := JoinWords(words[1..]);
      SplitJoinWords(words[1..]);
      JoinWordsEnds(words[1..]);
      assert JoinWords(words) == words[0] + (" " + tail);
      SplitWordsPrefix(words[0], " " + tail);
      assert (" " + tail)[1..] == tail;
      assert TrimStart(" " + tail) == tail;
      assert SplitWords(" " + tail) == [""] + words[1..];
      assert words[0] + "" == words[0];
      assert words == [words[0]] + words[1..];
    }
  }

  /** A string without whitespace trims to itself. */
  lemma TrimNoWhitespace(s: string)
    requires forall i :: 0 <= i < |s| ==> !IsWhitespace(s[i])
    ensures Trim(s) == s
  {
  }

  /** Lowercasing leaves a string without capital letters as it is. */
  lemma LowerNoCapitals(s: string)
    requires forall i :: 0 <= i < |s| ==> !('A' <= s[i] <= 'Z')
    ensures Lower(s) == s
  {
  }
}
