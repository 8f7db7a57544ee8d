/**
 * The PHP string functions the adapter relies on, restricted to the way it
 * calls them: `strtr` with a three-entry table, `str_replace` with an empty
 * replacement, `stripos` and `rtrim` with the character list ",".
 */
module PhpStrings {
  import opened SonarTypes

  // ---------------------------------------------------------------------
  // strtr($message, ["\n" => '\n', "\r" => '\r', "\t" => '\t'])
  // ---------------------------------------------------------------------

  predicate IsControl(c: char)
  {
    c == '\n' || c == '\r' || c == '\t'
  }

  predicate IsEscapeLetter(c: char)
  {
    c == 'n' || c == 'r' || c == 't'
  }

  /** The letter that follows the backslash in the replacement of `c`. */
  function EscapeLetter(c: char): (l: char)
    requires IsControl(c)
    ensures IsEscapeLetter(l)
  {
    if c == '\n' then 'n' else if c == '\r' then 'r' else 't'
  }

  /** The control character that a backslash and `l` stand for. */
  function ControlOf(l: char): (c: char)
    requires IsEscapeLetter(l)
    ensures IsControl(c) && EscapeLetter(c) == l
  {
    if l == 'n' then '\n' else if l == 'r' then '\r' else '\t'
  }

  /** Number of newline, carriage-return and tab characters in `s`. */
  function CountControl(s: string): nat
  {
    if |s| == 0 then 0 else (if IsControl(s[0]) then 1 else 0) + CountControl(s[1..])
  }

  /**
   * The `strtr` call. All keys of its table are single characters, so it
   * rewrites character by character: a control character becomes a
   * backslash and its letter, anything else is copied.
   */
  function Escape(s: string): (e: string)
    ensures |e| == |s| + CountControl(s)
    ensures forall i :: 0 <= i < |e| ==> !IsControl(e[i])
  {
    if |s| == 0 then ""
    else (if IsControl(s[0]) then ['\\', EscapeLetter(s[0])] else [s[0]]) + Escape(s[1..])
  }

  /** Reads the two-character sequences back as control characters. */
  function Unescape(e: string): (s: string)
    ensures |s| <= |e|
  {
    if |e| == 0 then ""
    else if |e| >= 2 && e[0] == '\\' && IsEscapeLetter(e[1]) then [ControlOf(e[1])] + Unescape(e[2..])
    else [e[0]] + Unescape(e[1..])
  }

  /** `s` holds no backslash that is already followed by n, r or t. */
  predicate NoEscapeLookalike(s: string)
  {
    forall i :: 0 <= i < |s| - 1 ==> !(s[i] == '\\' && IsEscapeLetter(s[i + 1]))
  }

  /** Escaping works character by character, so it distributes over concatenation. */
  lemma {:induction false} EscapeAppend(a: string, b: string)
    ensures Escape(a + b) == Escape(a) + Escape(b)
    decreases |a|
  {
    if |a| > 0 {
      var head := if IsControl(a[0]) then ['\\', EscapeLetter(a[0])] else [a[0]];
      assert (a + b)[0] == a[0];
      assert (a + b)[1..] == a[1..] + b;
      assert Escape(a + b) == head + Escape(a[1..] + b);
      EscapeAppend(a[1..], b);
      assert Escape(a) == head + Escape(a[1..]);
      assert head + (Escape(a[1..]) + Escape(b)) == (head + Escape(a[1..])) + Escape(b);
    } else {
      assert a + b == b;
    }
  }

  /** A message without control characters passes through unchanged. */
  lemma {:induction false} EscapeKeepsPlainText(s: string)
    requires CountControl(s) == 0
    ensures Escape(s) == s
    decreases |s|
  {
    if |s| > 0 {
      EscapeKeepsPlainText(s[1..]);
    }
  }

  /** The first character of an escaped text is a backslash or the first character of the input. */
  lemma EscapeHead(s: string)
    requires |s| > 0
    ensures |Escape(s)| > 0
    ensures Escape(s)[0] == (if IsControl(s[0]) then '\\' else s[0])
  {
  }

  /** Unescaping recovers the message whenever no escape sequence was already present. */
  lemma {:induction false} EscapeRoundTrip(s: string)
    requires NoEscapeLookalike(s)
    ensures Unescape(Escape(s)) == s
    decreases |s|
  {
    if |s| > 0 {
      var rest := Escape(s[1..]);
      assert NoEscapeLookalike(s[1..]) by {
        forall i | 0 <= i < |s[1..]| - 1
          ensures !(s[1..][i] == '\\' && IsEscapeLetter(s[1..][i + 1]))
        {
          assert s[1..][i] == s[i + 1] && s[1..][i + 1] == s[i + 2];
        }
      }
      EscapeRoundTrip(s[1..]);
      if IsControl(s[0]) {
        var e := ['\\', EscapeLetter(s[0])] + rest;
        assert Escape(s) == e;
        assert e[2..] == rest;
      } else {
        var e := [s[0]] + rest;
        assert Escape(s) == e;
        assert e[1..] == rest;
        if s[0] == '\\' && |rest| > 0 {
          EscapeHead(s[1..]);
          assert !IsEscapeLetter(e[1]);
        }
      }
    }
  }

  /** On messages without ready-made escape sequences, escaping loses nothing. */
  lemma EscapeInjective(a: string, b: string)
    requires NoEscapeLookalike(a) && NoEscapeLookalike(b)
    requires Escape(a) == Escape(b)
    ensures a == b
  {
    EscapeRoundTrip(a);
    EscapeRoundTrip(b);
  }

  /** A raw newline and a backslash followed by the letter n escape alike. */
  lemma EscapeConflatesLookalike()
    ensures Escape("\n") == Escape("\\n") == "\\n"
  {
    assert Escape("\n") == ['\\', 'n'] + Escape("");
    assert Escape("\\n") == ['\\'] + Escape("n");
    assert "\\n"[1..] == "n";
    assert Escape("n") == ['n'] + Escape("");
  }

  // ---------------------------------------------------------------------
  // str_replace($search, '', $subject)
  // ---------------------------------------------------------------------

  predicate OccursAt(s: string, pat: string, i: nat)
  {
    i + |pat| <= |s| && s[i..i + |pat|] == pat
  }

  predicate Contains(s: string, pat: string)
  {
    exists i: nat :: i <= |s| && OccursAt(s, pat, i)
  }

  /**
   * `str_replace(pat, '', s)`: scans left to right and deletes every
   * non-overlapping occurrence of `pat`, resuming the scan after each one.
   */
  function RemoveOccurrences(s: string, pat: string): (r: string)
    requires |pat| > 0
    ensures |r| <= |s|
    decreases |s|
  {
    if |s| < |pat| then s
    else if s[..|pat|] == pat then RemoveOccurrences(s[|pat|..], pat)
    else [s[0]] + RemoveOccurrences(s[1..], pat)
  }

  /** A subject without any occurrence of the search string is returned as it is. */
  lemma {:induction false} RemoveOccurrencesAbsent(s: string, pat: string)
    requires |pat| > 0 && !Contains(s, pat)
    ensures RemoveOccurrences(s, pat) == s
    decreases |s|
  {
    if |s| >= |pat| {
      assert !OccursAt(s, pat, 0);
      assert s[0..|pat|] == s[..|pat|];
      assert !Contains(s[1..], pat) by {
        forall i: nat | OccursAt(s[1..], pat, i) ensures false {
          assert s[1..][i..i + |pat|] == s[i + 1..i + 1 + |pat|];
          assert OccursAt(s, pat, i + 1);
        }
      }
      RemoveOccurrencesAbsent(s[1..], pat);
      assert [s[0]] + s[1..] == s;
    }
  }

  /** Deleting a leading occurrence and nothing else. */
  lemma RemoveLeadingOccurrence(pat: string, rest: string)
    requires |pat| > 0 && !Contains(rest, pat)
    ensures RemoveOccurrences(pat + rest, pat) == rest
  {
    var s := pat + rest;
    assert s[..|pat|] == pat;
    assert s[|pat|..] == rest;
    RemoveOccurrencesAbsent(rest, pat);
  }

  /**
   * The scan copies the text before the leftmost occurrence, deletes that
   * occurrence and resumes right after it. With `RemoveOccurrencesAbsent`
   * this fixes the result on every subject.
   */
  lemma {:induction false} RemoveLeftmostOccurrence(u: string, pat: string, v: string)
    requires |pat| > 0
    requires forall i: nat :: i < |u| ==> !OccursAt(u + pat + v, pat, i)
    ensures RemoveOccurrences(u + pat + v, pat) == u + RemoveOccurrences(v, pat)
    decreases |u|
  {
    var s := u + pat + v;
    if |u| == 0 {
      assert s == pat + v;
      assert s[..|pat|] == pat && s[|pat|..] == v;
    } else {
      assert !OccursAt(s, pat, 0);
      assert s[0..|pat|] == s[..|pat|];
      var t := u[1..] + pat + v;
      assert RemoveOccurrences(s, pat) == [u[0]] + RemoveOccurrences(t, pat) by {
        assert s[1..] == t && s[0] == u[0];
      }
      NoOccurrenceInTail(u, pat, v);
      RemoveLeftmostOccurrence(u[1..], pat, v);
      assert u == [u[0]] + u[1..];
    }
  }

  /** Dropping the first character keeps the text before the occurrence free of it. */
  lemma NoOccurrenceInTail(u: string, pat: string, v: string)
    requires |u| > 0
    requires forall i: nat :: i < |u| ==> !OccursAt(u + pat + v, pat, i)
    ensures forall i: nat :: i < |u[1..]| ==> !OccursAt(u[1..] + pat + v, pat, i)
  {
    var s, t := u + pat + v, u[1..] + pat + v;
    assert s[1..] == t;
    forall i: nat | i < |u[1..]| ensures !OccursAt(t, pat, i) {
      assert !OccursAt(s, pat, i + 1);
      if i + |pat| <= |t| {
        assert t[i..i + |pat|] == s[i + 1..i + 1 + |pat|];
      }
    }
  }

  // ---------------------------------------------------------------------
  // stripos($haystack, $needle) !== false
  // ---------------------------------------------------------------------

  /** ASCII lower-casing, the folding `stripos` applies to both arguments. */
  function FoldCase(c: char): (d: char)
    ensures 'A' <= c <= 'Z' ==> d as int == c as int + 32
    ensures !('A' <= c <= 'Z') ==> d == c
  {
    if 'A' <= c <= 'Z' then (c as int + 32) as char else c
  }

  /** `needle` matches `haystack` at offset `i`, ignoring ASCII case. */
  predicate MatchesAt(haystack: string, needle: string, i: nat)
  {
    i + |needle| <= |haystack| &&
    forall k :: 0 <= k < |needle| ==> FoldCase(haystack[i + k]) == FoldCase(needle[k])
  }

  /** The leftmost case-insensitive match at or after `from`, as `stripos` reports it. */
  function FindFolded(haystack: string, needle: string, from: nat): (r: Option<nat>)
    requires from <= |haystack|
    ensures r.Some? ==> from <= r.value && MatchesAt(haystack, needle, r.value)
    ensures r.Some? ==> forall j: nat :: from <= j < r.value ==> !MatchesAt(haystack, needle, j)
    ensures r.None? ==> forall j: nat :: from <= j ==> !MatchesAt(haystack, needle, j)
    decreases |haystack| - from
  {
    if from + |needle| > |haystack| then None
    else if MatchesAt(haystack, needle, from) then Some(from)
    else FindFolded(haystack, needle, from + 1)
  }

  /** `stripos`: the position of the first case-insensitive match, or none. */
  function Stripos(haystack: string, needle: string): (r: Option<nat>)
    ensures r.Some? <==> exists i: nat :: MatchesAt(haystack, needle, i)
    ensures r.Some? ==> MatchesAt(haystack, needle, r.value)
    ensures r.Some? ==> forall j: nat :: j < r.value ==> !MatchesAt(haystack, needle, j)
  {
    FindFolded(haystack, needle, 0)
  }

  // ---------------------------------------------------------------------
  // rtrim($cachedData, ',')
  // ---------------------------------------------------------------------

  /** `rtrim(s, ',')`: drops every trailing comma, however many there are. */
  function RTrimComma(s: string): (r: string)
    ensures r <= s
    ensures |r| == 0 || r[|r| - 1] != ','
    ensures forall i :: |r| <= i < |s| ==> s[i] == ','
    decreases |s|
  {
    if |s| > 0 && s[|s| - 1] == ',' then RTrimComma(s[..|s| - 1]) else s
  }

  /** A run of `n` commas. */
  function Commas(n: nat): (s: string)
    ensures |s| == n && forall i :: 0 <= i < n ==> s[i] == ','
  {
    seq(n, _ => ',')
  }

  /** Trailing commas after a text that does not itself end in a comma are all removed, and only they. */
  lemma RTrimCommaDropsRun(s: string, n: nat)
    requires |s| == 0 || s[|s| - 1] != ','
    ensures RTrimComma(s + Commas(n)) == s
  {
    RTrimCommaIgnoresTrailing(s, n);
  }

  /** rtrim is idempotent and insensitive to how many commas trail the text. */
  lemma {:induction false} RTrimCommaIgnoresTrailing(s: string, n: nat)
    ensures RTrimComma(s + Commas(n)) == RTrimComma(s)
    decreases n
  {
    if n > 0 {
      var t := s + Commas(n);
      assert t[..|t| - 1] == s + Commas(n - 1);
      RTrimCommaIgnoresTrailing(s, n - 1);
    } else {
      assert s + Commas(0) == s;
    }
  }
}
