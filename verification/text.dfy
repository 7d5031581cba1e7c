/**
 String operations the student manager applies to names, phone numbers,
 class labels and search queries, each with the JavaScript meaning the
 component relies on: the whitespace that `String.prototype.trim` removes,
 `includes`, `startsWith`, `split` on one separator character and the
 `\d` class of a non-Unicode regular expression.
 */
module Text {

  /** The code points JavaScript counts as WhiteSpace or LineTerminator,
      which are exactly the ones `trim` strips from either end. */
  predicate IsSpace(c: char) {
    var n := c as int;
    n == 0x09 || n == 0x0A || n == 0x0B || n == 0x0C || n == 0x0D || n == 0x20
    || n == 0xA0 || n == 0x1680 || (0x2000 <= n <= 0x200A)
    || n == 0x2028 || n == 0x2029 || n == 0x202F || n == 0x205F
    || n == 0x3000 || n == 0xFEFF
  }

  /** `\d` without the `u` flag: the ASCII decimal digits only. */
  predicate IsDigit(c: char) {
    '0' <= c <= '9'
  }

  predicate AllSpace(s: string) {
    forall i :: 0 <= i < |s| ==> IsSpace(s[i])
  }

  /** Strips leading whitespace: the result is a suffix of `s` that does
      not start with whitespace (`TrimStartDropsSpace`: and all that was
      dropped is whitespace). */
  function TrimStart(s: string): (r: string)
    ensures |r| <= |s| && r == s[|s| - |r|..]
    ensures r == [] || !IsSpace(r[0])
    decreases |s|
  {
    if |s| > 0 && IsSpace(s[0]) then TrimStart(s[1..]) else s
  }

  lemma {:induction false} TrimStartDropsSpace(s: string)
    ensures AllSpace(s[..|s| - |TrimStart(s)|])
    decreases |s|
  {
    if |s| > 0 && IsSpace(s[0]) {
      var r := TrimStart(s[1..]);
      TrimStartDropsSpace(s[1..]);
      assert s[..|s| - |r|] == [s[0]] + s[1..][..|s[1..]| - |r|];
    }
  }

  /** Strips trailing whitespace: the result is a prefix of `s` that does
      not end with whitespace (`TrimEndDropsSpace`: and all that was
      dropped is whitespace). */
  function TrimEnd(s: string): (r: string)
    ensures |r| <= |s| && r == s[..|r|]
    ensures r == [] || !IsSpace(r[|r| - 1])
    decreases |s|
  {
    if |s| > 0 && IsSpace(s[|s| - 1]) then TrimEnd(s[..|s| - 1]) else s
  }

  lemma {:induction false} TrimEndDropsSpace(s: string)
    ensures AllSpace(s[|TrimEnd(s)|..])
    decreases |s|
  {
    if |s| > 0 && IsSpace(s[|s| - 1]) {
      var r := TrimEnd(s[..|s| - 1]);
      TrimEndDropsSpace(s[..|s| - 1]);
      assert s[|r|..] == s[..|s| - 1][|r|..] + [s[|s| - 1]];
    }
  }

  /** Number of characters `Trim` drops at the front of `s`. */
  function LeadingSpace(s: string): nat
    ensures LeadingSpace(s) <= |s|
  {
    |s| - |TrimStart(s)|
  }

  /** `String.prototype.trim`: the result is the slice of `s` that starts
      and ends without whitespace (`TrimDropsSpace`: and what lies around
      it is whitespace). */
  function Trim(s: string): (r: string)
    ensures LeadingSpace(s) + |r| <= |s|
    ensures r == s[LeadingSpace(s)..LeadingSpace(s) + |r|]
    ensures r == [] || (!IsSpace(r[0]) && !IsSpace(r[|r| - 1]))
  {
    var t := TrimStart(s);
    var r := TrimEnd(t);
    assert t == s[LeadingSpace(s)..];
    r
  }

  /** Everything `Trim` removes, at either end, is whitespace. */
  lemma TrimDropsSpace(s: string)
    ensures AllSpace(s[..LeadingSpace(s)]) && AllSpace(s[LeadingSpace(s) + |Trim(s)|..])
  {
    var t := TrimStart(s);
    TrimStartDropsSpace(s);
    TrimEndDropsSpace(t);
    assert s[LeadingSpace(s) + |Trim(s)|..] == t[|Trim(s)|..];
  }

  /** A string already free of whitespace at both ends is its own trim. */
  lemma TrimOfTrimmed(s: string)
    requires s == [] || (!IsSpace(s[0]) && !IsSpace(s[|s| - 1]))
    ensures Trim(s) == s
  {
  }

  /** Trimming twice is trimming once. */
  lemma TrimIdempotent(s: string)
    ensures Trim(Trim(s)) == Trim(s)
  {
    TrimOfTrimmed(Trim(s));
  }

  /** A string trims to nothing exactly when it is all whitespace, which
      is what makes `!label.trim()` the blank-label test. */
  lemma {:induction false} TrimBlankIffAllSpace(s: string)
    ensures Trim(s) == [] <==> AllSpace(s)
  {
    TrimDropsSpace(s);
    if Trim(s) == [] {
      var k := LeadingSpace(s);
      assert s == s[..k] + s[k..];
    } else {
      var k := LeadingSpace(s);
      assert s[k] == Trim(s)[0];
    }
  }

  /** ASCII lower-casing; other code points are left alone, which is where
      this differs from the full Unicode `toLowerCase`. */
  function LowerChar(c: char): char {
    if 'A' <= c <= 'Z' then (c as int + 32) as char else c
  }

  /** `s.toLowerCase()` on ASCII: each upper-case letter becomes its
      lower-case partner and nothing else changes. */
  function Lower(s: string): (r: string)
    ensures |r| == |s|
    ensures forall i :: 0 <= i < |s| ==> !('A' <= r[i] <= 'Z')
    ensures forall i :: 0 <= i < |s| && 'A' <= s[i] <= 'Z' ==> r[i] as int == s[i] as int + 32
    ensures forall i :: 0 <= i < |s| && !('A' <= s[i] <= 'Z') ==> r[i] == s[i]
  {
    seq(|s|, i requires 0 <= i < |s| => LowerChar(s[i]))
  }

  predicate StartsWith(s: string, prefix: string) {
    |prefix| <= |s| && s[..|prefix|] == prefix
  }

  /** `t` occurs in `s` starting at index `i`. */
  predicate OccursAt(s: string, t: string, i: int) {
    0 <= i && i + |t| <= |s| && s[i..i + |t|] == t
  }

  /** `String.prototype.includes`: a left-to-right scan for `t`. It finds
      `t` exactly when `t` occurs somewhere in `s`; in particular the
      empty string is contained in every string. */
  function Contains(s: string, t: string): (r: bool)
    ensures r <==> exists i :: OccursAt(s, t, i)
    decreases |s|
  {
    if |t| > |s| then
      assert forall i :: !OccursAt(s, t, i);
      false
    else if s[..|t|] == t then
      assert OccursAt(s, t, 0);
      true
    else
      OccursAfterFirst(s, t);
      Contains(s[1..], t)
  }

  /** When `t` is not at the front of `s`, it occurs in `s` exactly when
      it occurs in `s` without its first character. */
  lemma OccursAfterFirst(s: string, t: string)
    requires |t| <= |s| && s[..|t|] != t
    ensures (exists i :: OccursAt(s, t, i)) <==> (exists i :: OccursAt(s[1..], t, i))
  {
    if exists i :: OccursAt(s[1..], t, i) {
      var i :| OccursAt(s[1..], t, i);
      assert s[i + 1..i + 1 + |t|] == s[1..][i..i + |t|];
      assert OccursAt(s, t, i + 1);
    }
    if exists i :: OccursAt(s, t, i) {
      var i :| OccursAt(s, t, i);
      assert i != 0;
      assert s[1..][i - 1..i - 1 + |t|] == s[i..i + |t|];
      assert OccursAt(s[1..], t, i - 1);
    }
  }

  /** `Array.prototype.join` with a single-character separator. */
  function JoinWith(parts: seq<string>, sep: char): string
  {
    if |parts| == 0 then ""
    else if |parts| == 1 then parts[0]
    else parts[0] + [sep] + JoinWith(parts[1..], sep)
  }

  /** `String.prototype.split` on a single character: the pieces between
      separators, always at least one. Joining them with the separator
      gives `s` back, and no piece contains the separator. */
  function SplitOn(s: string, sep: char): (parts: seq<string>)
    ensures |parts| >= 1
    ensures JoinWith(parts, sep) == s
    ensures forall k :: 0 <= k < |parts| ==> sep !in parts[k]
    decreases |s|
  {
    if |s| == 0 then [""]
    else
      var rest := SplitOn(s[1..], sep);
      assert s == [s[0]] + s[1..];
      if s[0] == sep then
        var parts := [""] + rest;
        assert parts[1..] == rest;
        assert forall k :: 1 <= k < |parts| ==> parts[k] == rest[k - 1];
        parts
      else
        var parts := [[s[0]] + rest[0]] + rest[1..];
        assert parts[1..] == rest[1..];
        assert forall k :: 1 <= k < |parts| ==> parts[k] == rest[k];
        if |rest| > 1 then
          assert JoinWith(rest, sep) == rest[0] + [sep] + JoinWith(rest[1..], sep);
          assert JoinWith(parts, sep) == ([s[0]] + rest[0]) + [sep] + JoinWith(rest[1..], sep);
          parts
        else
          parts
  }

  lemma {:induction false} SplitAfterPlainPrefix(a: string, t: string, sep: char)
    requires sep !in a
    ensures SplitOn(a + t, sep) == [a + SplitOn(t, sep)[0]] + SplitOn(t, sep)[1..]
    decreases |a|
  {
    if |a| > 0 {
      var p := SplitOn(t, sep);
      assert (a + t)[0] == a[0];
      assert (a + t)[1..] == a[1..] + t;
      SplitAfterPlainPrefix(a[1..], t, sep);
      var rest := SplitOn(a[1..] + t, sep);
      assert rest[0] == a[1..] + p[0] && rest[1..] == p[1..];
      assert SplitOn(a + t, sep) == [[a[0]] + rest[0]] + rest[1..];
      assert [a[0]] + (a[1..] + p[0]) == a + p[0];
    } else {
      var p := SplitOn(t, sep);
      assert a + t == t;
      assert a + p[0] == p[0];
      assert p == [p[0]] + p[1..];
    }
  }

  /** Splitting the join of separator-free pieces gives the pieces back. */
  lemma {:induction false} SplitJoin(parts: seq<string>, sep: char)
    requires |parts| >= 1
    requires forall k :: 0 <= k < |parts| ==> sep !in parts[k]
    ensures SplitOn(JoinWith(parts, sep), sep) == parts
    decreases |parts|
  {
    if |parts| == 1 {
      SplitAfterPlainPrefix(parts[0], "", sep);
      assert parts[0] + "" == parts[0];
    } else {
      var tail := JoinWith(parts[1..], sep);
      SplitJoin(parts[1..], sep);
      assert JoinWith(parts, sep) == parts[0] + ([sep] + tail);
      SplitAfterPlainPrefix(parts[0], [sep] + tail, sep);
      assert ([sep] + tail)[1..] == tail;
      assert SplitOn([sep] + tail, sep) == [""] + parts[1..];
      assert parts[0] + "" == parts[0];
    }
  }

  /** A string without the separator splits into itself alone. */
  lemma SplitWithoutSeparator(s: string, sep: char)
    ensures sep !in s ==> SplitOn(s, sep) == [s]
  {
    if sep !in s {
      SplitJoin([s], sep);
    }
  }
}
