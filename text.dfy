/**
  The three string operations of the Rust standard library that the search
  engine relies on, stated over `string` (a `seq<char>`):
  - `Lines`, the line splitting of `str::lines`;
  - `Contains`, substring containment as in `str::contains`;
  - `ToUpper`, upper-casing as in `str::to_uppercase`, restricted to ASCII.
 */
module Text {

  // ---------------------------------------------------------------------------
  // Line splitting
  // ---------------------------------------------------------------------------

  /** True when `s` ends with a carriage return. */
  predicate EndsWithCr(s: string) {
    |s| > 0 && s[|s| - 1] == '\r'
  }

  /** Drops one trailing '\r', if there is one. */
  function StripCr(s: string): (r: string)
    ensures EndsWithCr(s) ==> s == r + ['\r']
    ensures !EndsWithCr(s) ==> r == s
  {
    if EndsWithCr(s) then s[..|s| - 1] else s
  }

  /** The position of the first '\n' in `s`, or `|s|` when there is none. */
  function IndexOfNewline(s: string): (k: nat)
    ensures k <= |s|
    ensures k < |s| ==> s[k] == '\n'
  {
    if s == [] || s[0] == '\n' then 0 else 1 + IndexOfNewline(s[1..])
  }

  /** `IndexOfNewline` finds the first line feed: there is none before it. */
  lemma {:induction false} IndexOfNewlineIsFirst(s: string)
    ensures '\n' !in s[..IndexOfNewline(s)]
  {
    if s != [] && s[0] != '\n' {
      IndexOfNewlineIsFirst(s[1..]);
      assert s[..IndexOfNewline(s)] == [s[0]] + s[1..][..IndexOfNewline(s[1..])];
    }
  }

  /**
    The lines of `text`, as `str::lines` yields them: the text is split at
    every '\n'; one trailing '\r' is removed from each piece; a final '\n'
    does not start an extra empty line, and the empty text has no lines.
   */
  function Lines(text: string): (r: seq<string>)
    ensures r == [] <==> text == []
    decreases |text|
  {
    if text == [] then []
    else
      var k := IndexOfNewline(text);
      if k == |text| then [StripCr(text)]
      else [StripCr(text[..k])] + Lines(text[k + 1..])
  }

  /** Joins lines back into a text, each one terminated by '\n'. */
  function Unlines(ls: seq<string>): string {
    if ls == [] then [] else ls[0] + "\n" + Unlines(ls[1..])
  }

  /** A string that `Lines` gives back unchanged as one line. */
  predicate IsPlainLine(l: string) {
    '\n' !in l && !EndsWithCr(l)
  }

  /** No line produced by `Lines` contains a line feed. */
  lemma {:induction false} LinesHaveNoNewline(text: string)
    ensures forall l :: l in Lines(text) ==> '\n' !in l
    decreases |text|
  {
    if text != [] {
      var k := IndexOfNewline(text);
      IndexOfNewlineIsFirst(text);
      if k == |text| {
        assert text[..k] == text;
      } else {
        LinesHaveNoNewline(text[k + 1..]);
      }
    }
  }

  /** A terminated plain line is split off as exactly one line. */
  lemma LinesCons(l: string, rest: string)
    requires IsPlainLine(l)
    ensures Lines(l + "\n" + rest) == [l] + Lines(rest)
  {
    var text := l + "\n" + rest;
    IndexOfNewlineAfterPlain(l, "\n" + rest);
    assert l + "\n" + rest == l + ("\n" + rest);
    assert text[..|l|] == l;
    assert text[|l| + 1..] == rest;
  }

  /** The first line feed of `l + rest`, with `l` free of line feeds, is the first one of `rest`. */
  lemma {:induction false} IndexOfNewlineAfterPlain(l: string, rest: string)
    requires '\n' !in l
    ensures IndexOfNewline(l + rest) == |l| + IndexOfNewline(rest)
    decreases |l|
  {
    if l != [] {
      assert l[0] in l && (l + rest)[0] == l[0];
      assert (l + rest)[1..] == l[1..] + rest;
      assert forall c :: c in l[1..] ==> c in l;
      IndexOfNewlineAfterPlain(l[1..], rest);
    } else {
      assert l + rest == rest;
    }
  }

  /** A plain line terminated by "\r\n" is split off as exactly one line, without the '\r'. */
  lemma LinesCrLf(l: string, rest: string)
    requires IsPlainLine(l)
    ensures Lines(l + "\r\n" + rest) == [l] + Lines(rest)
  {
    var text := l + "\r\n" + rest;
    var lcr := l + "\r";
    assert '\n' !in lcr by {
      forall i | 0 <= i < |lcr| ensures lcr[i] != '\n' {
        if i < |l| { assert lcr[i] == l[i]; }
      }
    }
    IndexOfNewlineAfterPlain(lcr, "\n" + rest);
    assert text == lcr + ("\n" + rest);
    assert text[..|lcr|] == lcr;
    assert text[|lcr| + 1..] == rest;
    assert StripCr(lcr) == l;
  }

  /** A plain line ended by a lone '\r' and no '\n' is one line, without the '\r'. */
  lemma LastLineCr(l: string)
    requires IsPlainLine(l)
    ensures Lines(l + "\r") == [l]
  {
  }

  /** An unterminated, non-empty plain line is one line on its own. */
  lemma LastLine(l: string)
    requires IsPlainLine(l) && l != []
    ensures Lines(l) == [l]
  {
    IndexOfNewlineAfterPlain(l, []);
    assert l + [] == l;
  }

  /**
    Round trip from lines: terminating each plain line with '\n' and
    splitting again gives the same lines, so a trailing newline adds no
    empty line.
   */
  lemma {:induction false} LinesOfUnlines(ls: seq<string>)
    requires forall l :: l in ls ==> IsPlainLine(l)
    ensures Lines(Unlines(ls)) == ls
  {
    if ls != [] {
      LinesCons(ls[0], Unlines(ls[1..]));
      LinesOfUnlines(ls[1..]);
    }
  }

  /**
    Splitting terminated plain lines followed by an unterminated, non-empty
    plain line gives all of them: the last line needs no '\n'.
   */
  lemma {:induction false} LinesOfUnterminated(ls: seq<string>, last: string)
    requires forall l :: l in ls ==> IsPlainLine(l)
    requires IsPlainLine(last) && last != []
    ensures Lines(Unlines(ls) + last) == ls + [last]
  {
    if ls == [] {
      assert Unlines(ls) + last == last;
      LastLine(last);
    } else {
      assert Unlines(ls) + last == ls[0] + "\n" + (Unlines(ls[1..]) + last);
      LinesCons(ls[0], Unlines(ls[1..]) + last);
      LinesOfUnterminated(ls[1..], last);
    }
  }

  /**
    Round trip from text: a text without carriage returns that is empty or
    ends in '\n' is rebuilt exactly from its lines.
   */
  lemma {:induction false} UnlinesOfLines(text: string)
    requires '\r' !in text
    requires text == [] || text[|text| - 1] == '\n'
    ensures Unlines(Lines(text)) == text
    decreases |text|
  {
    if text != [] {
      var k := IndexOfNewline(text);
      IndexOfNewlineIsFirst(text);
      assert k < |text|;
      var line, rest := text[..k], text[k + 1..];
      assert text == line + "\n" + rest;
      assert !EndsWithCr(line) by {
        if line != [] {
          assert line[|line| - 1] in text;
        }
      }
      assert '\r' !in rest by {
        forall i | 0 <= i < |rest| ensures rest[i] != '\r' {
          assert rest[i] in text;
        }
      }
      assert rest == [] || rest[|rest| - 1] == '\n';
      UnlinesOfLines(rest);
      assert Lines(text) == [line] + Lines(rest);
    }
  }

  // ---------------------------------------------------------------------------
  // Substring containment
  // ---------------------------------------------------------------------------

  /** `q` occurs in `s` starting at position `i`. */
  predicate OccursAt(s: string, q: string, i: int) {
    0 <= i <= |s| - |q| && s[i..i + |q|] == q
  }

  /** `q` occurs in `s` as a contiguous substring. */
  predicate Contains(s: string, q: string)
    ensures Contains(s, q) ==> |q| <= |s|
  {
    exists i | 0 <= i <= |s| - |q| :: OccursAt(s, q, i)
  }

  /** Every string contains the empty string. */
  lemma ContainsEmpty(s: string)
    ensures Contains(s, "")
  {
    assert OccursAt(s, "", 0);
  }

  /** One differing character rules out an occurrence at position `i`. */
  lemma Mismatch(s: string, q: string, i: int, j: nat)
    requires 0 <= i && j < |q| && i + j < |s| && s[i + j] != q[j]
    ensures !OccursAt(s, q, i)
  {
  }

  // ---------------------------------------------------------------------------
  // Upper-casing
  // ---------------------------------------------------------------------------

  /** ASCII upper-casing of one character; every other character is kept. */
  function UpperChar(c: char): char {
    if 'a' <= c <= 'z' then (c as int - 32) as char else c
  }

  /** Upper-cases a string character by character, keeping its length. */
  function ToUpper(s: string): (r: string)
    ensures |r| == |s|
  {
    seq(|s|, i requires 0 <= i < |s| => UpperChar(s[i]))
  }

  /**
    What upper-casing does to each position: an ASCII lower-case letter
    becomes its upper-case letter, so none remains, and every other
    character is kept as it is.
   */
  lemma ToUpperChars(s: string)
    ensures forall i :: 0 <= i < |s| && 'a' <= s[i] <= 'z' ==>
      'A' <= ToUpper(s)[i] <= 'Z' && ToUpper(s)[i] as int == s[i] as int - 32
    ensures forall i :: 0 <= i < |s| ==> !('a' <= ToUpper(s)[i] <= 'z')
    ensures forall i :: 0 <= i < |s| && !('a' <= s[i] <= 'z') ==> ToUpper(s)[i] == s[i]
  {
  }

  /** Upper-casing commutes with taking a slice. */
  lemma ToUpperSlice(s: string, i: nat, j: nat)
    requires i <= j <= |s|
    ensures ToUpper(s)[i..j] == ToUpper(s[i..j])
  {
  }

  /** Upper-casing an upper-cased string changes nothing. */
  lemma ToUpperIdempotent(s: string)
    ensures ToUpper(ToUpper(s)) == ToUpper(s)
  {
  }

  /**
    `c` and `d` are the same character, or the same ASCII letter in
    different cases.
   */
  predicate SameIgnoringCase(c: char, d: char) {
    || c == d
    || ('a' <= c <= 'z' && d as int == c as int - 32)
    || ('a' <= d <= 'z' && c as int == d as int - 32)
  }

  /** `s` and `t` spell the same text when ASCII letter case is ignored. */
  predicate EqualIgnoringCase(s: string, t: string) {
    |s| == |t| && forall i :: 0 <= i < |s| ==> SameIgnoringCase(s[i], t[i])
  }

  /**
    Upper-casing identifies exactly the strings that are equal when ASCII
    letter case is ignored: 'a'..'z' and 'A'..'Z' are matched one to one.
   */
  lemma ToUpperEqual(s: string, t: string)
    ensures ToUpper(s) == ToUpper(t) <==> EqualIgnoringCase(s, t)
  {
    if ToUpper(s) == ToUpper(t) {
      forall i | 0 <= i < |s| ensures SameIgnoringCase(s[i], t[i]) {
        assert ToUpper(s)[i] == ToUpper(t)[i];
      }
    }
    if EqualIgnoringCase(s, t) {
      forall i | 0 <= i < |s| ensures ToUpper(s)[i] == ToUpper(t)[i] {
        assert SameIgnoringCase(s[i], t[i]);
      }
    }
  }

  /**
    Upper-casing both sides keeps a containment: the occurrence of `q` at
    position `i` of `s` becomes an occurrence of `ToUpper(q)` at the same
    position of `ToUpper(s)`.
   */
  lemma ContainsToUpper(s: string, q: string)
    requires Contains(s, q)
    ensures Contains(ToUpper(s), ToUpper(q))
  {
    var i :| 0 <= i <= |s| - |q| && OccursAt(s, q, i);
    ToUpperSlice(s, i, i + |q|);
    assert OccursAt(ToUpper(s), ToUpper(q), i);
  }
}
