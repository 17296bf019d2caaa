/** The escape-code stripper both PlainFormatter and JsonFormatter apply:
    `re.sub(r'\u001b\[.*?[@-~]', '', s)`.

    A match is ESC, `[`, the shortest run of characters other than a newline
    (Python's `.` does not match `\n`), then one final character in `@`..`~`.
    `re.sub` scans left to right, removes each match it meets and copies every
    character at which no match starts. */
module CsiStrip {
  import opened PyValues

  const ESC: char := '\U{1b}'

  /** The character class `[@-~]`. */
  predicate IsFinal(c: char) {
    '@' <= c <= '~'
  }

  // ---------------------------------------------------------------------------
  // Reference definitions: what the pattern matches, stated declaratively.

  /** `t[..n]` matches `\u001b\[.*[@-~]` (the pattern without laziness). */
  ghost predicate Matches(t: string, n: nat) {
    && 3 <= n <= |t|
    && t[0] == ESC && t[1] == '['
    && IsFinal(t[n - 1])
    && forall j :: 2 <= j < n - 1 ==> t[j] != '\n'
  }

  /** `k` is where the lazy `.*?[@-~]` stops in `t`: the first final character,
      with no newline before it. */
  ghost predicate StopsAt(t: string, k: nat) {
    && k < |t|
    && IsFinal(t[k])
    && forall j :: 0 <= j < k ==> t[j] != '\n' && !IsFinal(t[j])
  }

  /** A match of the pattern starts at position `i` of `s`. */
  ghost predicate MatchStartsAt(s: string, i: nat)
    requires i <= |s|
  {
    CsiMatch(s[i..]).Some?
  }

  // ---------------------------------------------------------------------------
  // The matcher, as recursive functions.

  /** The position of the final character that ends `.*?[@-~]` in `t`, or None
      when a newline or the end of `t` comes first. */
  function FinalIndex(t: string): (r: Option<nat>)
    ensures r.Some? ==> r.value < |t| && IsFinal(t[r.value])
  {
    if |t| == 0 then None
    else if IsFinal(t[0]) then Some(0)
    else if t[0] == '\n' then None
    else
      match FinalIndex(t[1..])
      case None => None
      case Some(k) => Some(k + 1)
  }

  /** The length of the match of the pattern at the start of `t`, if any. */
  function CsiMatch(t: string): (r: Option<nat>)
    ensures r.Some? ==> 3 <= r.value <= |t| && t[0] == ESC && IsFinal(t[r.value - 1])
  {
    if |t| >= 2 && t[0] == ESC && t[1] == '[' then
      match FinalIndex(t[2..])
      case None => None
      case Some(k) => Some(k + 3)
    else
      None
  }

  /** What `re.sub(pattern, '', s)` returns. */
  function Strip(s: string): (r: string)
    ensures |r| <= |s|
    decreases |s|
  {
    if |s| == 0 then []
    else
      match CsiMatch(s)
      case Some(n) => Strip(s[n..])
      case None => [s[0]] + Strip(s[1..])
  }

  // ---------------------------------------------------------------------------
  // The matcher agrees with the declarative reading of the pattern.

  /** The lazy `.*?[@-~]` stops exactly at the first final character, and only
      when no newline comes before it. */
  lemma {:induction false} FinalIndexIsFirstFinal(t: string, k: nat)
    ensures FinalIndex(t) == Some(k) <==> StopsAt(t, k)
  {
    if |t| == 0 || IsFinal(t[0]) || t[0] == '\n' {
    } else if k == 0 {
    } else {
      FinalIndexIsFirstFinal(t[1..], k - 1);
      if StopsAt(t, k) {
        forall j | 0 <= j < k - 1 ensures t[1..][j] != '\n' && !IsFinal(t[1..][j]) {
          assert t[1..][j] == t[j + 1];
        }
        assert StopsAt(t[1..], k - 1);
      }
      if StopsAt(t[1..], k - 1) {
        forall j | 0 <= j < k ensures t[j] != '\n' && !IsFinal(t[j]) {
          if j > 0 { assert t[j] == t[1..][j - 1]; }
        }
      }
    }
  }

  /** When `FinalIndex` finds nothing, no final character follows a newline-free run. */
  lemma NoFinalIndex(t: string)
    requires FinalIndex(t).None?
    ensures forall k :: !StopsAt(t, k)
  {
    forall k: nat ensures !StopsAt(t, k) {
      FinalIndexIsFirstFinal(t, k);
    }
  }

  /** The matcher returns the SHORTEST match of the pattern (the laziness of
      `.*?`), and finds none exactly when the pattern cannot match at all. */
  lemma CsiMatchIsShortest(t: string)
    ensures CsiMatch(t).Some? ==>
              Matches(t, CsiMatch(t).value) &&
              forall m :: 0 <= m < CsiMatch(t).value ==> !Matches(t, m)
    ensures CsiMatch(t).None? ==> forall m: nat :: !Matches(t, m)
  {
    if |t| >= 2 && t[0] == ESC && t[1] == '[' {
      var u := t[2..];
      match FinalIndex(u)
      case Some(k) =>
        FinalIndexIsFirstFinal(u, k);
        forall m | 0 <= m < k + 3 ensures !Matches(t, m) {
          if 3 <= m {
            assert !IsFinal(u[m - 3]) && t[m - 1] == u[m - 3];
          }
        }
        forall j | 2 <= j < k + 2 ensures t[j] != '\n' {
          assert t[j] == u[j - 2];
        }
      case None =>
        NoFinalIndex(u);
        forall m: nat | Matches(t, m) ensures false {
          // the first final character in t[2..m] ends a lazy match
          FirstFinalBefore(u, m - 3);
        }
    }
  }

  /** If `t[k]` is final and no newline comes before it, then the lazy match
      stops somewhere at or before `k`. */
  lemma {:induction false} FirstFinalBefore(t: string, k: nat)
    requires k < |t| && IsFinal(t[k])
    requires forall j :: 0 <= j < k ==> t[j] != '\n'
    ensures exists i :: 0 <= i <= k && StopsAt(t, i)
  {
    if IsFinal(t[0]) {
      assert StopsAt(t, 0);
    } else {
      FirstFinalBefore(t[1..], k - 1);
      var i :| 0 <= i <= k - 1 && StopsAt(t[1..], i);
      forall j | 0 <= j < i + 1 ensures t[j] != '\n' && !IsFinal(t[j]) {
        if j > 0 { assert t[j] == t[1..][j - 1]; }
      }
      assert StopsAt(t, i + 1);
    }
  }

  // ---------------------------------------------------------------------------
  // The scanner `re.sub` runs, proved against `Strip`.

  /** The match of the pattern at the start of `t`, searched for as the
      regular expression engine does: check `ESC [`, then advance over the lazy
      `.*?` until the first final character, giving up at a newline or the end. */
  method MatchAt(t: string) returns (m: Option<nat>)
    ensures m == CsiMatch(t)
  {
    if 1 < |t| && t[0] == ESC && t[1] == '[' {
      var j := 2;
      while j < |t| && !IsFinal(t[j]) && t[j] != '\n'
        invariant 2 <= j <= |t|
        invariant forall k :: 2 <= k < j ==> t[k] != '\n' && !IsFinal(t[k])
      {
        j := j + 1;
      }
      ghost var u := t[2..];
      if j < |t| && IsFinal(t[j]) {
        FinalIndexIsFirstFinal(u, j - 2);
        m := Some(j + 1);
      } else {
        forall k: nat ensures FinalIndex(u) != Some(k) {
          FinalIndexIsFirstFinal(u, k);
          if k < j - 2 {
            assert u[k] == t[2 + k];
          } else if j < |t| {
            assert u[j - 2] == t[j];
          }
        }
        m := None;
      }
    } else {
      m := None;
    }
  }

  /** `re.sub(r'\u001b\[.*?[@-~]', '', s)`: copy `s` left to right, skipping
      every match met on the way. `rest` is the part not yet scanned. */
  method Sub(s: string) returns (r: string)
    ensures r == Strip(s)
  {
    r := [];
    var rest := s;
    while |rest| > 0
      invariant r + Strip(rest) == Strip(s)
      decreases |rest|
    {
      r, rest := Advance(s, rest, r);
    }
  }

  /** One step of the scan at the start of `rest`: skip the match found there,
      or else copy one character to the output. */
  method Advance(s: string, rest: string, r: string) returns (r': string, rest': string)
    requires |rest| > 0 && r + Strip(rest) == Strip(s)
    ensures |rest'| < |rest| && r' + Strip(rest') == Strip(s)
  {
    var m := MatchAt(rest);
    StripStep(rest);
    if m.Some? {
      r', rest' := r, rest[m.value..];
    } else {
      r', rest' := r + [rest[0]], rest[1..];
    }
  }

  /** One step of `Strip`, unfolded. */
  lemma StripStep(t: string)
    requires |t| > 0
    ensures CsiMatch(t).Some? ==> Strip(t) == Strip(t[CsiMatch(t).value..])
    ensures CsiMatch(t).None? ==> Strip(t) == [t[0]] + Strip(t[1..])
  {
  }

  // ---------------------------------------------------------------------------
  // What stripping promises.

  /** `a` is a subsequence of `b`: `a` is `b` with some characters removed, the
      rest kept in order. */
  predicate IsSubsequence(a: string, b: string)
    decreases |b|
  {
    if |b| == 0 then |a| == 0
    else (|a| > 0 && a[0] == b[0] && IsSubsequence(a[1..], b[1..])) || IsSubsequence(a, b[1..])
  }

  lemma {:induction false} SubsequenceOfSuffix(a: string, b: string, n: nat)
    requires n <= |b| && IsSubsequence(a, b[n..])
    ensures IsSubsequence(a, b)
    decreases n
  {
    if n > 0 {
      assert b[1..][n - 1..] == b[n..];
      SubsequenceOfSuffix(a, b[1..], n - 1);
    }
  }

  lemma {:induction false} SubsequenceShorter(a: string, b: string)
    requires IsSubsequence(a, b)
    ensures |a| <= |b|
    decreases |b|
  {
    if |b| > 0 {
      if |a| > 0 && a[0] == b[0] && IsSubsequence(a[1..], b[1..]) {
        SubsequenceShorter(a[1..], b[1..]);
      } else {
        SubsequenceShorter(a, b[1..]);
      }
    }
  }

  /** Every prefix of a subsequence of `b` is a subsequence of `b`. */
  lemma {:induction false} SubsequencePrefix(a: string, b: string, k: nat)
    requires k <= |a| && IsSubsequence(a, b)
    ensures IsSubsequence(a[..k], b)
    decreases |b|
  {
    if |b| == 0 {
    } else if |a| > 0 && a[0] == b[0] && IsSubsequence(a[1..], b[1..]) {
      if k > 0 {
        SubsequencePrefix(a[1..], b[1..], k - 1);
        assert a[..k][1..] == a[1..][..k - 1];
      } else {
        EmptySubsequence(b);
      }
    } else {
      SubsequencePrefix(a, b[1..], k);
    }
  }

  lemma {:induction false} EmptySubsequence(b: string)
    ensures IsSubsequence([], b)
    decreases |b|
  {
    if |b| > 0 {
      EmptySubsequence(b[1..]);
    }
  }

  /** Stripping only removes characters: the result is a subsequence of the
      input, in the same order, and so never longer. */
  lemma {:induction false} StripIsSubsequence(s: string)
    ensures IsSubsequence(Strip(s), s)
    ensures |Strip(s)| <= |s|
    decreases |s|
  {
    if |s| > 0 {
      match CsiMatch(s)
      case Some(n) =>
        StripIsSubsequence(s[n..]);
        SubsequenceOfSuffix(Strip(s), s, n);
      case None =>
        StripIsSubsequence(s[1..]);
        assert ([s[0]] + Strip(s[1..]))[1..] == Strip(s[1..]);
    }
  }

  /** A match anywhere in `s` makes stripping remove something. */
  lemma {:induction false} MatchShortens(s: string, i: nat)
    requires i < |s| && MatchStartsAt(s, i)
    ensures |Strip(s)| < |s|
    decreases |s|
  {
    match CsiMatch(s)
    case Some(n) =>
    case None =>
      assert i > 0;
      assert s[1..][i - 1..] == s[i..];
      MatchShortens(s[1..], i - 1);
  }

  /** Stripping leaves `s` as it is exactly when the pattern matches nowhere in `s`. */
  lemma {:induction false} StripUnchangedIffNoMatch(s: string)
    ensures Strip(s) == s <==> forall i :: 0 <= i < |s| ==> !MatchStartsAt(s, i)
    decreases |s|
  {
    if forall i :: 0 <= i < |s| ==> !MatchStartsAt(s, i) {
      if |s| > 0 {
        assert !MatchStartsAt(s, 0) by { assert s[0..] == s; }
        forall i | 0 <= i < |s[1..]| ensures !MatchStartsAt(s[1..], i) {
          assert s[1..][i..] == s[i + 1..];
          assert !MatchStartsAt(s, i + 1);
        }
        StripUnchangedIffNoMatch(s[1..]);
      }
    } else {
      var i :| 0 <= i < |s| && MatchStartsAt(s, i);
      MatchShortens(s, i);
    }
  }

  /** A message with no ESC character at all passes through unchanged. */
  lemma NoEscapeUnchanged(s: string)
    requires ESC !in s
    ensures Strip(s) == s
  {
    forall i | 0 <= i < |s| ensures !MatchStartsAt(s, i) {
      assert s[i..][0] == s[i];
    }
    StripUnchangedIffNoMatch(s);
  }

  /** Stripping is not idempotent, and its output can still contain a match:
      in `ESC ESC [ A [ B` the second ESC starts `ESC [ A`; removing it joins
      the first ESC to the `[` that follows, and `[` is itself a final character. */
  lemma StripNotIdempotent()
    ensures var s := [ESC, ESC, '[', 'A', '[', 'B'];
            Strip(s) == [ESC, '[', 'B'] && MatchStartsAt(Strip(s), 0) && Strip(Strip(s)) == []
  {
    var s := [ESC, ESC, '[', 'A', '[', 'B'];
    assert CsiMatch(s) == None;
    assert s[1..][2..] == ['A', '[', 'B'];
    assert CsiMatch(s[1..]) == Some(3);
    assert s[1..][3..] == ['[', 'B'];
    assert CsiMatch(['[', 'B']) == None;
    assert Strip(['B']) == ['B'] by {
      assert CsiMatch(['B']) == None;
      assert ['B'][1..] == [];
    }
    assert Strip(['[', 'B']) == ['[', 'B'] by {
      assert ['[', 'B'][1..] == ['B'];
    }
    assert Strip(s[1..]) == ['[', 'B'];
    assert Strip(s) == [ESC, '[', 'B'];
    var t := [ESC, '[', 'B'];
    assert t[2..] == ['B'];
    assert CsiMatch(t) == Some(3);
    assert t[0..] == t;
    assert t[3..] == [];
  }
}
