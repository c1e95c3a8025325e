/**
 * The parts of the ECMAScript `String.prototype` library the viewport polyfill
 * relies on: `split` with a one-character separator, `trim`, and the
 * white-space classification both `trim` and `parseInt` use.
 */
module JsString {

  /** ECMAScript LineTerminator: LF, CR, LINE SEPARATOR, PARAGRAPH SEPARATOR. */
  predicate IsLineTerminator(c: char) {
    c == '\n' || c == '\r' || c == '\U{2028}' || c == '\U{2029}'
  }

  /**
   * ECMAScript StrWhiteSpaceChar: WhiteSpace (TAB, VT, FF, SP, NBSP, ZWNBSP and
   * the space separators of category Zs) or a LineTerminator.  These are the
   * characters `trim` removes and `parseInt` skips.
   */
  predicate IsStrWhiteSpaceChar(c: char) {
    || c == '\t' || c == '\U{000B}' || c == '\U{000C}' || c == ' '
    || c == '\U{00A0}' || c == '\U{FEFF}' || c == '\U{1680}'
    || ('\U{2000}' <= c <= '\U{200A}')
    || c == '\U{202F}' || c == '\U{205F}' || c == '\U{3000}'
    || IsLineTerminator(c)
  }

  ghost predicate AllWhiteSpace(s: string) {
    forall k :: 0 <= k < |s| ==> IsStrWhiteSpaceChar(s[k])
  }

  /**
   * `s.split(sep)` for a one-character separator: the maximal separator-free
   * pieces between separators, so never empty (`"".split(",")` is `[""]`).
   */
  function Split(s: string, sep: char): (parts: seq<string>)
    ensures |parts| >= 1
    decreases |s|
  {
    if |s| == 0 then [""]
    else
      var rest := Split(s[1..], sep);
      if s[0] == sep then [""] + rest
      else [[s[0]] + rest[0]] + rest[1..]
  }

  /** `parts.join(sep)`: the pieces with one separator between neighbours. */
  function Join(parts: seq<string>, sep: char): string
  {
    if |parts| == 0 then ""
    else if |parts| == 1 then parts[0]
    else parts[0] + [sep] + Join(parts[1..], sep)
  }

  /**
   * The pieces of a split are free of the separator, and the first one is the
   * text before the first separator (all of `s` when there is none).
   */
  lemma {:induction false} SplitSpec(s: string, sep: char)
    ensures forall k :: 0 <= k < |Split(s, sep)| ==> sep !in Split(s, sep)[k]
    ensures Split(s, sep)[0] <= s
    ensures |Split(s, sep)[0]| < |s| ==> s[|Split(s, sep)[0]|] == sep
    decreases |s|
  {
    if |s| > 0 {
      SplitSpec(s[1..], sep);
    }
  }

  /** Joining the pieces of a split gives back the original string. */
  lemma {:induction false} JoinSplit(s: string, sep: char)
    ensures Join(Split(s, sep), sep) == s
    decreases |s|
  {
    if |s| > 0 {
      var rest := Split(s[1..], sep);
      JoinSplit(s[1..], sep);
      if s[0] == sep {
        assert Split(s, sep) == [""] + rest;
        assert ([""] + rest)[1..] == rest;
      } else {
        var parts := Split(s, sep);
        assert parts == [[s[0]] + rest[0]] + rest[1..];
        if |rest| == 1 {
          assert Join(parts, sep) == [s[0]] + rest[0];
        } else {
          assert parts[1..] == rest[1..];
          assert Join(rest, sep) == rest[0] + [sep] + Join(rest[1..], sep);
          assert Join(parts, sep) == [s[0]] + rest[0] + [sep] + Join(rest[1..], sep);
        }
      }
    }
  }

  /** A string without the separator splits into itself alone. */
  lemma {:induction false} SplitWithoutSeparator(p: string, sep: char)
    requires sep !in p
    ensures Split(p, sep) == [p]
    decreases |p|
  {
    if |p| > 0 {
      SplitWithoutSeparator(p[1..], sep);
      assert [p[0]] + p[1..] == p;
    }
  }

  /** A separator-free piece followed by the separator splits off as the first piece. */
  lemma {:induction false} SplitAfterPiece(p: string, sep: char, t: string)
    requires sep !in p
    ensures Split(p + [sep] + t, sep) == [p] + Split(t, sep)
    decreases |p|
  {
    var s := p + [sep] + t;
    if |p| == 0 {
      assert s[1..] == t;
    } else {
      assert s[1..] == p[1..] + [sep] + t;
      SplitAfterPiece(p[1..], sep, t);
      assert [p[0]] + p[1..] == p;
    }
  }

  /** Splitting a join of separator-free pieces gives back the pieces. */
  lemma {:induction false} SplitJoin(parts: seq<string>, sep: char)
    requires |parts| >= 1
    requires forall k :: 0 <= k < |parts| ==> sep !in parts[k]
    ensures Split(Join(parts, sep), sep) == parts
    decreases |parts|
  {
    if |parts| == 1 {
      SplitWithoutSeparator(parts[0], sep);
    } else {
      SplitJoin(parts[1..], sep);
      SplitAfterPiece(parts[0], sep, Join(parts[1..], sep));
      assert [parts[0]] + parts[1..] == parts;
    }
  }

  /** `s.trimStart()`: the suffix left after dropping leading white space. */
  function TrimStart(s: string): (r: string)
    ensures |r| <= |s|
    decreases |s|
  {
    if |s| > 0 && IsStrWhiteSpaceChar(s[0]) then TrimStart(s[1..]) else s
  }

  /** `s.trimEnd()`: the prefix left after dropping trailing white space. */
  function TrimEnd(s: string): (r: string)
    ensures |r| <= |s| && r == s[..|r|]
    decreases |s|
  {
    if |s| > 0 && IsStrWhiteSpaceChar(s[|s| - 1]) then TrimEnd(s[..|s| - 1]) else s
  }

  /** What `TrimStart` drops is white space, and what it keeps does not start with white space. */
  lemma {:induction false} TrimStartSpec(s: string)
    ensures TrimStart(s) == s[|s| - |TrimStart(s)|..]
    ensures forall k :: 0 <= k < |s| - |TrimStart(s)| ==> IsStrWhiteSpaceChar(s[k])
    ensures |TrimStart(s)| > 0 ==> !IsStrWhiteSpaceChar(TrimStart(s)[0])
    decreases |s|
  {
    if |s| > 0 && IsStrWhiteSpaceChar(s[0]) {
      TrimStartSpec(s[1..]);
    }
  }

  /** What `TrimEnd` drops is white space, and what it keeps does not end with white space. */
  lemma {:induction false} TrimEndSpec(s: string)
    ensures forall k :: |TrimEnd(s)| <= k < |s| ==> IsStrWhiteSpaceChar(s[k])
    ensures |TrimEnd(s)| > 0 ==> !IsStrWhiteSpaceChar(TrimEnd(s)[|TrimEnd(s)| - 1])
    decreases |s|
  {
    if |s| > 0 && IsStrWhiteSpaceChar(s[|s| - 1]) {
      TrimEndSpec(s[..|s| - 1]);
    }
  }

  /** `s.trim()`: white space removed from both ends, nothing else touched. */
  function Trim(s: string): (r: string)
    ensures |r| <= |s|
  {
    TrimEnd(TrimStart(s))
  }

  /** The leading white space of `s`, the part `TrimStart` drops. */
  function LeadingWhiteSpace(s: string): (w: string)
    ensures w + TrimStart(s) == s
  {
    TrimStartSpec(s);
    s[..|s| - |TrimStart(s)|]
  }

  /** Dropping leading white space from `w + t` leaves `t` when `t` does not start with white space. */
  lemma {:induction false} TrimStartPrefix(w: string, t: string)
    requires AllWhiteSpace(w)
    requires |t| == 0 || !IsStrWhiteSpaceChar(t[0])
    ensures TrimStart(w + t) == t
  {
    var s := w + t;
    TrimStartSpec(s);
    assert forall k :: 0 <= k < |w| ==> s[k] == w[k];
    assert |t| > 0 ==> s[|w|] == t[0];
  }

  /** The leading white space of `w + t` is `w` when `t` does not start with white space. */
  lemma {:induction false} LeadingWhiteSpaceOf(w: string, t: string)
    requires AllWhiteSpace(w)
    requires |t| == 0 || !IsStrWhiteSpaceChar(t[0])
    ensures LeadingWhiteSpace(w + t) == w
  {
    TrimStartPrefix(w, t);
    var l := LeadingWhiteSpace(w + t);
    assert l + t == w + t;
    assert l == (l + t)[..|l|];
  }

  /** Dropping trailing white space from `t + w` leaves `t` when `t` does not end with white space. */
  lemma {:induction false} TrimEndSuffix(t: string, w: string)
    requires AllWhiteSpace(w)
    requires |t| == 0 || !IsStrWhiteSpaceChar(t[|t| - 1])
    ensures TrimEnd(t + w) == t
  {
    var s := t + w;
    TrimEndSpec(s);
    assert forall k :: |t| <= k < |s| ==> s[k] == w[k - |t|];
    assert |t| > 0 ==> s[|t| - 1] == t[|t| - 1];
  }

  /**
   * Trim is determined by its result: white space, then a core that neither
   * starts nor ends with white space, then white space, trims to the core.
   */
  lemma {:induction false} TrimExact(pre: string, core: string, post: string)
    requires AllWhiteSpace(pre) && AllWhiteSpace(post)
    requires |core| == 0 || (!IsStrWhiteSpaceChar(core[0]) && !IsStrWhiteSpaceChar(core[|core| - 1]))
    ensures Trim(pre + core + post) == core
  {
    if |core| == 0 {
      assert pre + core + post == pre + post;
      assert AllWhiteSpace(pre + post);
      TrimStartPrefix(pre + post, "");
      assert pre + post + "" == pre + post;
    } else {
      assert pre + core + post == pre + (core + post);
      TrimStartPrefix(pre, core + post);
      TrimEndSuffix(core, post);
    }
  }
}
