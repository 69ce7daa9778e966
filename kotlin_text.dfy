/**
 * The Kotlin/JVM string operations the tactical core is built from:
 * `startsWith` (with and without `ignoreCase`), `removePrefix`, `contains`,
 * `replace` of a literal, `split("|")`, `trim()`, `isBlank()`, and the
 * regular-expression replacement `replace("\\s+".toRegex(), " ")`.
 * Strings are sequences of Unicode scalar values.
 */
module KotlinText {

  datatype Option<+T> = None | Some(value: T) {
    /** Kotlin's `?:` with a default on the right. */
    function GetOr(default: T): T {
      match this
      case Some(v) => v
      case None => default
    }
  }

  // ---------------------------------------------------------------------
  // Character classes
  // ---------------------------------------------------------------------

  /** `Char.isWhitespace()` on the JVM: Java whitespace (tab to carriage
      return, the four information separators) plus every Unicode space,
      line and paragraph separator. This is what `trim()` and `isBlank()` use. */
  predicate IsWhitespace(c: char) {
    || ('\t' <= c <= '\r')
    || ('\U{1C}' <= c <= '\U{1F}')
    || c == ' ' || c == '\U{A0}' || c == '\U{1680}'
    || ('\U{2000}' <= c <= '\U{200A}')
    || c == '\U{2028}' || c == '\U{2029}' || c == '\U{202F}' || c == '\U{205F}' || c == '\U{3000}'
  }

  /** The regular-expression class `\s` (ASCII only, no UNICODE_CHARACTER_CLASS flag). */
  predicate IsRegexSpace(c: char) {
    c == ' ' || c == '\t' || c == '\n' || c == '\U{B}' || c == '\U{C}' || c == '\r'
  }

  /** Characters that the regular-expression `.` does not match. */
  predicate IsLineTerminator(c: char) {
    c == '\n' || c == '\r' || c == '\U{85}' || c == '\U{2028}' || c == '\U{2029}'
  }

  lemma RegexSpaceIsWhitespace(c: char)
    ensures IsRegexSpace(c) ==> IsWhitespace(c)
  {
  }

  // ---------------------------------------------------------------------
  // Prefixes and substrings
  // ---------------------------------------------------------------------

  predicate StartsWith(s: string, prefix: string) {
    |prefix| <= |s| && s[..|prefix|] == prefix
  }

  /** `Char.equals(other, ignoreCase = true)` against an upper-case ASCII
      letter: the letter itself, its lower-case form, and the one non-ASCII
      character whose case mapping lands on an ASCII letter used here
      (KELVIN SIGN, which lower-cases to 'k'). */
  predicate EqualsIgnoreCase(c: char, letter: char)
    requires 'A' <= letter <= 'Z'
  {
    c == letter || c as int == letter as int + 32 || (letter == 'K' && c == '\U{212A}')
  }

  predicate IsUpperAscii(prefix: string) {
    forall i :: 0 <= i < |prefix| ==> 'A' <= prefix[i] <= 'Z'
  }

  /** The lower-case form of an upper-case ASCII word. */
  function LowerAscii(prefix: string): (lower: string)
    requires IsUpperAscii(prefix)
    ensures |lower| == |prefix|
    ensures forall i :: 0 <= i < |prefix| ==> 'a' <= lower[i] <= 'z' && lower[i] as int == prefix[i] as int + 32
  {
    seq(|prefix|, i requires 0 <= i < |prefix| => (prefix[i] as int + 32) as char)
  }

  /** `startsWith(prefix, ignoreCase = true)` for a prefix of upper-case ASCII
      letters: the exact prefix and its lower-case form both match, and so
      does every mix of the two. */
  predicate StartsWithIgnoreCase(s: string, prefix: string)
    requires IsUpperAscii(prefix)
    ensures StartsWith(s, prefix) ==> StartsWithIgnoreCase(s, prefix)
    ensures StartsWith(s, LowerAscii(prefix)) ==> StartsWithIgnoreCase(s, prefix)
    ensures StartsWithIgnoreCase(s, prefix) ==> |prefix| <= |s|
  {
    assert StartsWith(s, prefix) ==> forall i :: 0 <= i < |prefix| ==> s[i] == prefix[i] by {
      if StartsWith(s, prefix) {
        forall i | 0 <= i < |prefix| ensures s[i] == prefix[i] {
          assert s[i] == s[..|prefix|][i];
        }
      }
    }
    assert StartsWith(s, LowerAscii(prefix)) ==> forall i :: 0 <= i < |prefix| ==> s[i] == LowerAscii(prefix)[i] by {
      if StartsWith(s, LowerAscii(prefix)) {
        forall i | 0 <= i < |prefix| ensures s[i] == LowerAscii(prefix)[i] {
          assert s[i] == s[..|prefix|][i];
        }
      }
    }
    |prefix| <= |s| && forall i :: 0 <= i < |prefix| ==> EqualsIgnoreCase(s[i], prefix[i])
  }

  /** `removePrefix(prefix)`: case-sensitive. */
  function RemovePrefix(s: string, prefix: string): (r: string)
    ensures StartsWith(s, prefix) ==> prefix + r == s
    ensures !StartsWith(s, prefix) ==> r == s
  {
    if StartsWith(s, prefix) then s[|prefix|..] else s
  }

  /** `contains(t)`: `t` occurs in `s`, scanning from the front. */
  predicate Contains(s: string, t: string)
    decreases |s|
  {
    StartsWith(s, t) || (s != [] && Contains(s[1..], t))
  }

  /** An occurrence of `t` in `s` at index `i`. */
  predicate OccursAt(s: string, t: string, i: int) {
    0 <= i <= |s| - |t| && s[i..i + |t|] == t
  }

  /** The scan finds `t` exactly when it occurs at some index. */
  lemma {:induction false} ContainsIffOccurs(s: string, t: string)
    ensures Contains(s, t) <==> exists i :: OccursAt(s, t, i)
    decreases |s|
  {
    if s != [] {
      ContainsIffOccurs(s[1..], t);
      if exists i :: OccursAt(s, t, i) {
        var i :| OccursAt(s, t, i);
        if i > 0 { assert OccursAt(s[1..], t, i - 1); }
      }
      if exists i :: OccursAt(s[1..], t, i) {
        var i :| OccursAt(s[1..], t, i);
        assert s[1..][i..i + |t|] == s[i + 1..i + 1 + |t|];
        assert OccursAt(s, t, i + 1);
      }
      if StartsWith(s, t) { assert OccursAt(s, t, 0); }
    } else {
      if exists i :: OccursAt(s, t, i) {
        var i :| OccursAt(s, t, i);
        assert StartsWith(s, t);
      }
      if Contains(s, t) { assert OccursAt(s, t, 0); }
    }
  }

  lemma {:induction false} ContainsFirstChar(s: string, t: string)
    requires t != [] && Contains(s, t)
    ensures t[0] in s
    decreases |s|
  {
    if StartsWith(s, t) {
      assert s[0] == s[..|t|][0];
    } else {
      ContainsFirstChar(s[1..], t);
    }
  }

  lemma {:induction false} ContainsMiddle(u: string, t: string, v: string)
    ensures Contains(u + t + v, t)
    decreases |u|
  {
    if u == [] {
      assert u + t + v == t + v;
      assert (t + v)[..|t|] == t;
    } else {
      ContainsMiddle(u[1..], t, v);
      assert (u + t + v)[1..] == u[1..] + t + v;
    }
  }

  /** `replace(t, "")` for a non-empty literal `t`: every occurrence found
      scanning left to right, each search resuming after the previous
      occurrence, is deleted. */
  function RemoveAll(s: string, t: string): (r: string)
    requires t != []
    ensures |r| <= |s|
    ensures Contains(s, t) ==> |r| <= |s| - |t|
    ensures forall c :: c in r ==> c in s
    ensures !Contains(s, t) ==> r == s
    decreases |s|
  {
    if s == [] then []
    else if StartsWith(s, t) then RemoveAll(s[|t|..], t)
    else [s[0]] + RemoveAll(s[1..], t)
  }

  /** No occurrence starts in a prefix without the first character of `t`. */
  lemma {:induction false} RemoveAllPlainPrefix(x: string, y: string, t: string)
    requires t != [] && t[0] !in x
    ensures RemoveAll(x + y, t) == x + RemoveAll(y, t)
    decreases |x|
  {
    if x != [] {
      assert (x + y)[0] == x[0];
      assert (x + y)[1..] == x[1..] + y;
      RemoveAllPlainPrefix(x[1..], y, t);
      assert [x[0]] + (x[1..] + RemoveAll(y, t)) == x + RemoveAll(y, t);
    } else {
      assert x + y == y;
    }
  }

  /** An occurrence at the front is deleted. */
  lemma RemoveAllHead(y: string, t: string)
    requires t != []
    ensures RemoveAll(t + y, t) == RemoveAll(y, t)
  {
    assert (t + y)[..|t|] == t;
    assert (t + y)[|t|..] == y;
  }

  /** A suffix sharing no character with `t` cannot complete an occurrence,
      so it is kept as it is. */
  lemma {:induction false} RemoveAllPlainSuffix(y: string, w: string, t: string)
    requires t != [] && forall c :: c in w ==> c !in t
    ensures RemoveAll(y + w, t) == RemoveAll(y, t) + w
    decreases |y|
  {
    if y == [] {
      assert y + w == w;
      assert t[0] in t;
      if Contains(w, t) { ContainsFirstChar(w, t); }
    } else {
      var s := y + w;
      assert s[0] == y[0];
      assert StartsWith(s, t) == StartsWith(y, t) by {
        if |t| <= |y| {
          assert s[..|t|] == y[..|t|];
        } else if |t| <= |s| {
          assert t[|y|] in t;
          assert s[|y|] == w[0] && w[0] in w;
          assert s[..|t|][|y|] == s[|y|];
        }
      }
      if StartsWith(y, t) {
        assert s[|t|..] == y[|t|..] + w;
        RemoveAllPlainSuffix(y[|t|..], w, t);
      } else {
        assert s[1..] == y[1..] + w;
        RemoveAllPlainSuffix(y[1..], w, t);
        assert [y[0]] + (RemoveAll(y[1..], t) + w) == ([y[0]] + RemoveAll(y[1..], t)) + w;
      }
    }
  }

  // ---------------------------------------------------------------------
  // split("|") and its inverse
  // ---------------------------------------------------------------------

  function CountChar(s: string, d: char): nat {
    if s == [] then 0 else (if s[0] == d then 1 else 0) + CountChar(s[1..], d)
  }

  /** The fields joined back with the separator. */
  function Join(parts: seq<string>, d: char): string {
    if |parts| == 0 then ""
    else if |parts| == 1 then parts[0]
    else parts[0] + [d] + Join(parts[1..], d)
  }

  /** Kotlin `split(d)` with no limit: empty fields, leading and trailing
      ones included, are kept, so there is always one field more than there
      are separators. */
  function Split(s: string, d: char): (parts: seq<string>)
    ensures |parts| == CountChar(s, d) + 1
    ensures forall i :: 0 <= i < |parts| ==> d !in parts[i]
    ensures Join(parts, d) == s
    decreases |s|
  {
    if s == [] then [""]
    else
      var rest := Split(s[1..], d);
      if s[0] == d then
        assert Join([""] + rest, d) == "" + [d] + Join(rest, d);
        [""] + rest
      else
        var parts := [[s[0]] + rest[0]] + rest[1..];
        assert |rest| > 1 ==> Join(rest, d) == rest[0] + [d] + Join(rest[1..], d);
        assert |parts| > 1 ==> Join(parts, d) == parts[0] + [d] + Join(parts[1..], d);
        assert parts[1..] == rest[1..];
        parts
  }

  lemma SplitNoSeparator(s: string, d: char)
    requires d !in s
    ensures Split(s, d) == [s]
  {
    var parts := Split(s, d);
    assert CountChar(s, d) == 0 by { CountAbsent(s, d); }
  }

  lemma {:induction false} CountAbsent(s: string, d: char)
    requires d !in s
    ensures CountChar(s, d) == 0
    decreases |s|
  {
    if s != [] {
      assert d !in s[1..] by { forall c | c in s[1..] ensures c in s { } }
      CountAbsent(s[1..], d);
    }
  }

  /** Splitting at a separator splits the fields. */
  lemma {:induction false} SplitAppend(a: string, d: char, b: string)
    ensures Split(a + [d] + b, d) == Split(a, d) + Split(b, d)
    decreases |a|
  {
    if a == [] {
      assert a + [d] + b == [d] + b;
      assert ([d] + b)[1..] == b;
    } else {
      assert (a + [d] + b)[1..] == a[1..] + [d] + b;
      SplitAppend(a[1..], d, b);
    }
  }

  /** `split` undoes `Join` when no field contains the separator. */
  lemma {:induction false} SplitJoin(parts: seq<string>, d: char)
    requires |parts| >= 1
    requires forall i :: 0 <= i < |parts| ==> d !in parts[i]
    ensures Split(Join(parts, d), d) == parts
    decreases |parts|
  {
    SplitNoSeparator(parts[0], d);
    if |parts| > 1 {
      SplitJoin(parts[1..], d);
      SplitAppend(parts[0], d, Join(parts[1..], d));
      assert [parts[0]] + parts[1..] == parts;
    }
  }

  /** `SplitJoin` for a record of five fields. */
  lemma SplitJoinFive(fields: seq<string>, d: char)
    requires |fields| == 5
    requires d !in fields[0] && d !in fields[1] && d !in fields[2] && d !in fields[3] && d !in fields[4]
    ensures Split(Join(fields, d), d) == fields
  {
    SplitJoin(fields, d);
  }

  // ---------------------------------------------------------------------
  // trim() and isBlank()
  // ---------------------------------------------------------------------

  function TrimStart(s: string): (r: string)
    ensures |r| <= |s| && r == s[|s| - |r|..]
    ensures forall i :: 0 <= i < |s| - |r| ==> IsWhitespace(s[i])
    ensures r == [] || !IsWhitespace(r[0])
    decreases |s|
  {
    if s != [] && IsWhitespace(s[0]) then TrimStart(s[1..]) else s
  }

  function TrimEnd(s: string): (r: string)
    ensures |r| <= |s| && r == s[..|r|]
    ensures forall i :: |r| <= i < |s| ==> IsWhitespace(s[i])
    ensures r == [] || !IsWhitespace(r[|r| - 1])
    decreases |s|
  {
    if s != [] && IsWhitespace(s[|s| - 1]) then TrimEnd(s[..|s| - 1]) else s
  }

  /** `r` sits at offset `i` of `s`, and everything of `s` before and after it is whitespace. */
  predicate TrimmedAt(s: string, r: string, i: int) {
    && 0 <= i <= |s| - |r|
    && s[i..i + |r|] == r
    && (forall k :: 0 <= k < i ==> IsWhitespace(s[k]))
    && (forall k :: i + |r| <= k < |s| ==> IsWhitespace(s[k]))
  }

  /** `trim()`: the longest middle part of `s` that neither starts nor ends
      with whitespace; everything cut off on either side is whitespace. */
  function Trim(s: string): (r: string)
    ensures r == [] || (!IsWhitespace(r[0]) && !IsWhitespace(r[|r| - 1]))
    ensures exists i :: TrimmedAt(s, r, i)
  {
    var t := TrimStart(s);
    var r := TrimEnd(t);
    assert TrimmedAt(s, r, |s| - |t|) by {
      assert s[|s| - |t|..|s| - |t| + |r|] == r;
      forall k | |s| - |t| + |r| <= k < |s| ensures IsWhitespace(s[k]) {
        assert s[k] == t[k - (|s| - |t|)];
      }
    }
    r
  }

  predicate IsTrimmed(s: string) {
    s == [] || (!IsWhitespace(s[0]) && !IsWhitespace(s[|s| - 1]))
  }

  lemma TrimOfTrimmed(s: string)
    requires IsTrimmed(s)
    ensures Trim(s) == s
  {
  }

  /** Trimming twice is trimming once. */
  lemma TrimIdempotent(s: string)
    ensures Trim(Trim(s)) == Trim(s)
  {
    TrimOfTrimmed(Trim(s));
  }

  lemma {:induction false} TrimStartAppend(x: string, q: string)
    requires q != [] && !IsWhitespace(q[0])
    ensures TrimStart(x + q) == TrimStart(x) + q
    decreases |x|
  {
    if x == [] {
      assert x + q == q;
    } else {
      assert (x + q)[1..] == x[1..] + q;
      if IsWhitespace(x[0]) { TrimStartAppend(x[1..], q); }
    }
  }

  lemma {:induction false} TrimEndPrepend(q: string, y: string)
    requires q != [] && !IsWhitespace(q[|q| - 1])
    ensures TrimEnd(q + y) == q + TrimEnd(y)
    decreases |y|
  {
    if y == [] {
      assert q + y == q;
    } else {
      assert (q + y)[..|q + y| - 1] == q + y[..|y| - 1];
      if IsWhitespace(y[|y| - 1]) { TrimEndPrepend(q, y[..|y| - 1]); }
    }
  }

  lemma TrimStartChars(s: string)
    ensures forall c :: c in TrimStart(s) ==> c in s
  {
    var r := TrimStart(s);
    forall c | c in r ensures c in s {
      var k :| 0 <= k < |r| && r[k] == c;
      assert s[|s| - |r| + k] == c;
    }
  }

  /** A piece that starts and ends with non-whitespace survives `trim()` whole. */
  lemma TrimAround(x: string, p: string, y: string)
    requires p != [] && !IsWhitespace(p[0]) && !IsWhitespace(p[|p| - 1])
    ensures Trim(x + p + y) == TrimStart(x) + p + TrimEnd(y)
  {
    TrimStartMiddle(x, p, y);
    LastOfAppend(TrimStart(x), p);
    TrimEndPrepend(TrimStart(x) + p, y);
  }

  lemma TrimStartMiddle(x: string, p: string, y: string)
    requires p != [] && !IsWhitespace(p[0])
    ensures TrimStart(x + p + y) == (TrimStart(x) + p) + y
  {
    FirstOfAppend(p, y);
    TrimStartAppend(x, p + y);
    AppendAssoc(x, p, y);
    AppendAssoc(TrimStart(x), p, y);
  }

  lemma AppendAssoc(a: string, b: string, c: string)
    ensures a + b + c == a + (b + c)
  {
  }

  lemma FirstOfAppend(p: string, y: string)
    requires p != []
    ensures (p + y)[0] == p[0]
  {
  }

  lemma LastOfAppend(a: string, p: string)
    requires p != []
    ensures (a + p)[|a + p| - 1] == p[|p| - 1]
  {
  }

  lemma TrimChars(s: string)
    ensures forall c :: c in Trim(s) ==> c in s
  {
    var r := Trim(s);
    var i :| TrimmedAt(s, r, i);
    forall c | c in r ensures c in s {
      var k :| 0 <= k < |r| && r[k] == c;
      assert s[i + k] == c;
    }
  }

  /** `isBlank()`: empty or whitespace only. */
  predicate IsBlank(s: string) {
    forall i :: 0 <= i < |s| ==> IsWhitespace(s[i])
  }

  /** A text is blank exactly when nothing is left once it is trimmed. */
  lemma BlankIffTrimsToEmpty(s: string)
    ensures IsBlank(s) <==> Trim(s) == []
  {
    var r := Trim(s);
    var i :| TrimmedAt(s, r, i);
    if r != [] {
      assert s[i..i + |r|][0] == s[i];
    }
  }

  lemma {:induction false} TrimStartBlankPrefix(w: string, x: string)
    requires IsBlank(w)
    ensures TrimStart(w + x) == TrimStart(x)
    decreases |w|
  {
    if w == [] {
      assert w + x == x;
    } else {
      assert (w + x)[1..] == w[1..] + x;
      TrimStartBlankPrefix(w[1..], x);
    }
  }

  lemma {:induction false} TrimEndBlankSuffix(x: string, w: string)
    requires IsBlank(w)
    ensures TrimEnd(x + w) == TrimEnd(x)
    decreases |w|
  {
    if w == [] {
      assert x + w == x;
    } else {
      assert (x + w)[..|x + w| - 1] == x + w[..|w| - 1];
      TrimEndBlankSuffix(x, w[..|w| - 1]);
    }
  }

  lemma {:induction false} TrimStartKeepsTail(x: string, q: string)
    requires TrimStart(x) != []
    ensures TrimStart(x + q) == TrimStart(x) + q
    decreases |x|
  {
    assert (x + q)[0] == x[0];
    if IsWhitespace(x[0]) {
      assert (x + q)[1..] == x[1..] + q;
      TrimStartKeepsTail(x[1..], q);
    }
  }

  /** Blank padding on either side makes no difference to `trim()`. */
  lemma TrimPadding(before: string, s: string, after: string)
    requires IsBlank(before) && IsBlank(after)
    ensures Trim(before + s + after) == Trim(s)
    ensures Trim(before + (s + after)) == Trim(s)
  {
    assert before + s + after == before + (s + after);
    TrimStartBlankPrefix(before, s + after);
    if TrimStart(s) != [] {
      TrimStartKeepsTail(s, after);
      TrimEndBlankSuffix(TrimStart(s), after);
    } else {
      TrimStartBlankPrefix(s, after);
      assert TrimStart(after) == [] by { TrimStartBlankPrefix(after, []); assert after + [] == after; }
    }
  }

  /** A blank suffix makes no difference to `trim()`. */
  lemma TrimBlankSuffix(s: string, after: string)
    requires IsBlank(after)
    ensures Trim(s + after) == Trim(s)
  {
    TrimPadding([], s, after);
    assert [] + s + after == s + after;
  }

  /** Every text is its trimmed middle between two blank ends. */
  lemma TrimSplit(s: string) returns (before: string, after: string)
    ensures IsBlank(before) && IsBlank(after)
    ensures s == before + (Trim(s) + after)
  {
    var r := Trim(s);
    var i :| TrimmedAt(s, r, i);
    var j := i + |r|;
    before := s[..i];
    after := s[j..];
    SliceThree(s, i, j);
    forall k | 0 <= k < |after| ensures IsWhitespace(after[k]) {
      assert after[k] == s[j + k];
    }
  }

  lemma SliceThree(s: string, i: int, j: int)
    requires 0 <= i <= j <= |s|
    ensures s == s[..i] + (s[i..j] + s[j..])
  {
    assert s[i..] == s[i..j] + s[j..];
    assert s == s[..i] + s[i..];
  }

  /** Two blank texts make a blank text. */
  lemma BlankConcat(a: string, b: string)
    requires IsBlank(a) && IsBlank(b)
    ensures IsBlank(a + b)
  {
    forall k | 0 <= k < |a + b| ensures IsWhitespace((a + b)[k]) {
      if k >= |a| { assert (a + b)[k] == b[k - |a|]; }
    }
  }

  // ---------------------------------------------------------------------
  // replace("\\s+".toRegex(), " ")
  // ---------------------------------------------------------------------

  /** No two `\s` characters stand next to each other. */
  predicate NoSpaceRun(s: string) {
    forall i :: 0 <= i < |s| - 1 ==> !(IsRegexSpace(s[i]) && IsRegexSpace(s[i + 1]))
  }

  /** The collapse scan, told whether the character before `s` was a `\s`
      already turned into a space. */
  function CollapseFrom(s: string, afterSpace: bool): string
    decreases |s|
  {
    if s == [] then []
    else if !IsRegexSpace(s[0]) then [s[0]] + CollapseFrom(s[1..], false)
    else if afterSpace then CollapseFrom(s[1..], true)
    else " " + CollapseFrom(s[1..], true)
  }

  /** The scan never emits two `\s` in a row, emits no `\s` first when it
      starts inside a run, and emits only characters of `s` and spaces. */
  lemma {:induction false} CollapseFromFacts(s: string, afterSpace: bool)
    ensures NoSpaceRun(CollapseFrom(s, afterSpace))
    ensures afterSpace && CollapseFrom(s, afterSpace) != [] ==> !IsRegexSpace(CollapseFrom(s, afterSpace)[0])
    ensures forall c :: c in CollapseFrom(s, afterSpace) ==> c in s || c == ' '
    decreases |s|
  {
    if s != [] {
      var next := IsRegexSpace(s[0]);
      CollapseFromFacts(s[1..], next);
      var rest := CollapseFrom(s[1..], next);
      assert forall c :: c in s[1..] ==> c in s;
      if !next {
        var r := [s[0]] + rest;
        forall i | 0 <= i < |r| - 1 ensures !(IsRegexSpace(r[i]) && IsRegexSpace(r[i + 1])) {
          if i > 0 { assert r[i] == rest[i - 1] && r[i + 1] == rest[i]; }
        }
      } else if !afterSpace {
        var r := " " + rest;
        forall i | 0 <= i < |r| - 1 ensures !(IsRegexSpace(r[i]) && IsRegexSpace(r[i + 1])) {
          if i > 0 { assert r[i] == rest[i - 1] && r[i + 1] == rest[i]; }
        }
      }
    }
  }

  /** `replace("\\s+".toRegex(), " ")`: every maximal run of `\s`
      characters replaced by one space. */
  function CollapseSpaces(s: string): (r: string)
    ensures NoSpaceRun(r)
    ensures forall c :: c in r ==> c in s || c == ' '
  {
    CollapseFromFacts(s, false);
    CollapseFrom(s, false)
  }

  /** Whether the scan is inside a run of spaces after reading `s`. */
  function EndsAfterSpace(s: string, afterSpace: bool): bool {
    if s == [] then afterSpace else IsRegexSpace(s[|s| - 1])
  }

  /** What the scan emits for the first character of `s`. */
  function CollapseHead(c: char, afterSpace: bool): string {
    if !IsRegexSpace(c) then [c] else if afterSpace then [] else " "
  }

  lemma CollapseFromStep(s: string, afterSpace: bool)
    requires s != []
    ensures CollapseFrom(s, afterSpace) == CollapseHead(s[0], afterSpace) + CollapseFrom(s[1..], IsRegexSpace(s[0]))
  {
  }

  lemma {:induction false} CollapseFromAppend(a: string, b: string, afterSpace: bool)
    ensures CollapseFrom(a + b, afterSpace) == CollapseFrom(a, afterSpace) + CollapseFrom(b, EndsAfterSpace(a, afterSpace))
    decreases |a|
  {
    if a == [] {
      assert a + b == b;
    } else {
      var next := IsRegexSpace(a[0]);
      var head := CollapseHead(a[0], afterSpace);
      var x := CollapseFrom(a[1..], next);
      var y := CollapseFrom(b, EndsAfterSpace(a, afterSpace));
      assert CollapseFrom(a + b, afterSpace) == head + CollapseFrom(a[1..] + b, next) by {
        assert (a + b)[0] == a[0];
        assert (a + b)[1..] == a[1..] + b;
        CollapseFromStep(a + b, afterSpace);
      }
      assert CollapseFrom(a, afterSpace) == head + x by {
        CollapseFromStep(a, afterSpace);
      }
      assert CollapseFrom(a[1..] + b, next) == x + y by {
        assert EndsAfterSpace(a[1..], next) == EndsAfterSpace(a, afterSpace) by {
          assert a[1..] != [] ==> a[1..][|a[1..]| - 1] == a[|a| - 1];
        }
        CollapseFromAppend(a[1..], b, next);
      }
      assert head + (x + y) == (head + x) + y;
    }
  }

  lemma CollapseFromWord(s: string, afterSpace: bool)
    requires s != [] && !IsRegexSpace(s[0])
    ensures CollapseFrom(s, afterSpace) == CollapseFrom(s, false)
  {
  }

  lemma {:induction false} CollapseNoSpaces(p: string)
    requires forall i :: 0 <= i < |p| ==> !IsRegexSpace(p[i])
    ensures CollapseFrom(p, false) == p
    decreases |p|
  {
    if p != [] {
      CollapseNoSpaces(p[1..]);
    }
  }

  /** A piece free of `\s` survives the collapse whole. */
  lemma CollapseAround(x: string, p: string, y: string)
    requires p != []
    requires forall i :: 0 <= i < |p| ==> !IsRegexSpace(p[i])
    ensures CollapseSpaces(x + p + y) == CollapseSpaces(x) + p + CollapseSpaces(y)
  {
    assert x + p + y == x + (p + y);
    assert (p + y)[0] == p[0];
    CollapseFromAppend(x, p + y, false);
    CollapseFromWord(p + y, EndsAfterSpace(x, false));
    CollapseFromAppend(p, y, false);
    CollapseNoSpaces(p);
    assert !EndsAfterSpace(p, false);
  }

  /** A run of `\s` read by the scan emits one space, or nothing when the
      scan is already inside a run, and leaves the scan inside a run. */
  lemma {:induction false} CollapseFromRun(w: string, y: string, afterSpace: bool)
    requires forall i :: 0 <= i < |w| ==> IsRegexSpace(w[i])
    requires w != []
    ensures CollapseFrom(w + y, afterSpace) == (if afterSpace then "" else " ") + CollapseFrom(y, true)
    decreases |w|
  {
    assert (w + y)[0] == w[0];
    assert (w + y)[1..] == w[1..] + y;
    CollapseFromStep(w + y, afterSpace);
    if |w| > 1 {
      CollapseFromRun(w[1..], y, true);
    } else {
      assert w[1..] + y == y;
    }
  }

  /** Every maximal run of `\s` between two other characters, or at either
      end of the text, becomes exactly one space. */
  lemma CollapseRun(x: string, w: string, y: string)
    requires w != [] && forall i :: 0 <= i < |w| ==> IsRegexSpace(w[i])
    requires x == [] || !IsRegexSpace(x[|x| - 1])
    requires y == [] || !IsRegexSpace(y[0])
    ensures CollapseSpaces(x + w + y) == CollapseSpaces(x) + " " + CollapseSpaces(y)
  {
    AppendAssoc(x, w, y);
    CollapseFromAppend(x, w + y, false);
    assert !EndsAfterSpace(x, false);
    CollapseFromRun(w, y, false);
    if y != [] {
      CollapseFromWord(y, true);
    }
    AppendAssoc(CollapseSpaces(x), " ", CollapseSpaces(y));
  }

  /** A single space emits one space, or nothing inside a run. */
  lemma CollapseSpaceStep(rest: string, afterSpace: bool)
    ensures CollapseFrom(" " + rest, afterSpace) == (if afterSpace then "" else " ") + CollapseFrom(rest, true)
  {
    assert (" " + rest)[0] == ' ';
    assert (" " + rest)[1..] == rest;
  }

  /** A piece free of `\s` read inside a run is emitted whole and ends the run,
      unless it is empty. */
  lemma CollapsePieceStep(p: string, rest: string)
    requires forall c :: c in p ==> !IsRegexSpace(c)
    ensures CollapseFrom(p + rest, true) == p + CollapseFrom(rest, p == [])
  {
    CollapseFromAppend(p, rest, true);
    if p != [] {
      assert p[0] in p && p[|p| - 1] in p;
      CollapseFromWord(p, true);
      forall i | 0 <= i < |p| ensures !IsRegexSpace(p[i]) {
        assert p[i] in p;
      }
      CollapseNoSpaces(p);
    } else {
      assert p + rest == rest;
    }
  }

  /** Trimming cannot create a run of spaces: it only cuts off the ends. */
  lemma TrimKeepsNoSpaceRun(s: string)
    requires NoSpaceRun(s)
    ensures NoSpaceRun(Trim(s))
  {
    var t := TrimStart(s);
    NoSpaceRunSlice(s, |s| - |t|, |s|);
    NoSpaceRunSlice(t, 0, |TrimEnd(t)|);
  }

  lemma NoSpaceRunSlice(s: string, i: nat, j: nat)
    requires i <= j <= |s| && NoSpaceRun(s)
    ensures NoSpaceRun(s[i..j])
  {
    var r := s[i..j];
    forall k | 0 <= k < |r| - 1 ensures !(IsRegexSpace(r[k]) && IsRegexSpace(r[k + 1])) {
      assert r[k] == s[i + k] && r[k + 1] == s[i + k + 1];
    }
  }
}
