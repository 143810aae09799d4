/** The string operations of Rust's standard library that the program relies
    on (`contains`, `replace`, `trim`, `trim_end_matches`, `split`, `join`),
    and the lazy capture `open(.*?)close` of the `regex` crate, written out on
    `seq<char>`. */
module Strings {
  import opened Wrappers

  predicate IsAsciiDigit(c: char) {
    '0' <= c <= '9'
  }

  /** Rust's `char::is_whitespace` (the Unicode White_Space property). */
  predicate IsWhitespace(c: char) {
    || c == ' '
    || '\t' <= c <= '\r'
    || c == '\U{85}' || c == '\U{A0}' || c == '\U{1680}'
    || '\U{2000}' <= c <= '\U{200A}'
    || c == '\U{2028}' || c == '\U{2029}' || c == '\U{202F}' || c == '\U{205F}' || c == '\U{3000}'
  }

  /** No character of `a` occurs in `b`. */
  predicate Disjoint(a: string, b: string) {
    forall c :: c in a ==> c !in b
  }

  predicate OccursAt(s: string, pat: string, i: nat) {
    i + |pat| <= |s| && s[i..i + |pat|] == pat
  }

  /** The first position at or after `from` where `pat` occurs. */
  function FindFrom(s: string, pat: string, from: nat): (r: Option<nat>)
    ensures r.Some? ==> from <= r.value && OccursAt(s, pat, r.value)
    ensures r.Some? ==> forall k: nat :: from <= k < r.value ==> !OccursAt(s, pat, k)
    ensures r.None? ==> forall k: nat :: from <= k ==> !OccursAt(s, pat, k)
    decreases |s| - from
  {
    if from + |pat| > |s| then None
    else if s[from..from + |pat|] == pat then Some(from)
    else FindFrom(s, pat, from + 1)
  }

  /** `str::contains` with a string pattern. */
  function Contains(s: string, pat: string): (r: bool)
    ensures r <==> exists k: nat :: OccursAt(s, pat, k)
  {
    FindFrom(s, pat, 0).Some?
  }

  /** What the capture group of `open(.*?)close` holds on a line without line
      breaks: the text after the leftmost `open` up to the first `close` that
      follows it. When no `close` follows the leftmost `open`, none follows any
      later `open` either, and the regex does not match. */
  function Between(s: string, open: string, close: string): (r: Option<string>)
    ensures r.Some? ==> exists i: nat, j: nat ::
      && OccursAt(s, open, i) && i + |open| <= j && OccursAt(s, close, j)
      && (forall k: nat :: k < i ==> !OccursAt(s, open, k))
      && (forall k: nat :: i + |open| <= k < j ==> !OccursAt(s, close, k))
      && r.value == s[i + |open|..j]
    ensures r.None? ==> forall i: nat, j: nat ::
      OccursAt(s, open, i) && i + |open| <= j ==> !OccursAt(s, close, j)
  {
    match FindFrom(s, open, 0)
    case None => None
    case Some(i) =>
      match FindFrom(s, close, i + |open|)
      case None => None
      case Some(j) =>
        assert OccursAt(s, open, i) && OccursAt(s, close, j);
        Some(s[i + |open|..j])
  }

  /** A pattern at the very start is found there. */
  lemma FoundAtStart(pat: string, rest: string)
    ensures FindFrom(pat + rest, pat, 0) == Some(0)
  {
    assert (pat + rest)[0..|pat|] == pat;
  }

  /** A pattern without blanks, placed right after a blank and absent from
      the text before that blank, is first found where it was placed. */
  lemma FoundAfterSpace(a: string, pat: string, rest: string, from: nat)
    requires ' ' !in pat && !Contains(a, pat) && from <= |a| + 1
    ensures FindFrom(a + [' '] + pat + rest, pat, from) == Some(|a| + 1)
  {
    var s := a + [' '] + pat + rest;
    MiddleSlice(a + [' '], pat, rest);
    assert OccursAt(s, pat, |a| + 1);
    forall k: nat | k <= |a| ensures !OccursAt(s, pat, k) {
      if OccursAt(s, pat, k) {
        if k + |pat| <= |a| {
          assert a[k..k + |pat|] == s[k..k + |pat|];
          assert OccursAt(a, pat, k);
        } else {
          OccurrenceChar(s, pat, k, |a| - k);
        }
      }
    }
    var r := FindFrom(s, pat, from);
    assert r.Some?;
    assert !(r.value < |a| + 1) && !(r.value > |a| + 1);
  }

  /** The lazy capture between an opening pattern found at the end of `a`
      and a closing pattern, without blanks, placed after `x` and a blank. */
  lemma CaptureBeforeSpace(a: string, open: string, x: string, close: string, rest: string)
    requires ' ' !in close && !Contains(a + open + x, close)
    requires FindFrom(a + open + x + [' '] + close + rest, open, 0) == Some(|a|)
    ensures Between(a + open + x + [' '] + close + rest, open, close) == Some(x + [' '])
  {
    FoundAfterSpace(a + open + x, close, rest, |a| + |open|);
    Regroup(a + open, x, [' '], close, rest);
    MiddleSlice(a + open, x + [' '], close + rest);
  }

  /** The lazy capture between two blank-free patterns, the first placed
      after a blank and absent before it, the second placed after the
      capture and a blank and absent before that. */
  lemma CaptureAfterSpace(pre: string, open: string, x: string, close: string, post: string)
    requires ' ' !in open && !Contains(pre, open)
    requires ' ' !in close && !Contains(pre + [' '] + open + x, close)
    ensures Between(pre + [' '] + open + x + [' '] + close + post, open, close) == Some(x + [' '])
  {
    var tail := x + [' '] + close + post;
    FoundAfterSpace(pre, open, tail, 0);
    TailGroup(pre + [' '] + open, x, [' '], close, post);
    CaptureBeforeSpace(pre + [' '], open, x, close, post);
  }

  /** The lazy capture between a pattern at the very start and a
      blank-free pattern placed after the capture and a blank, absent
      before that. */
  lemma CaptureAtStart(open: string, x: string, close: string, post: string)
    requires ' ' !in close && !Contains(open + x, close)
    ensures Between(open + x + [' '] + close + post, open, close) == Some(x + [' '])
  {
    FoundAtStart(open, x + [' '] + close + post);
    TailGroup(open, x, [' '], close, post);
    FoundAfterSpace(open + x, close, post, |open|);
    Regroup(open, x, [' '], close, post);
    MiddleSlice(open, x + [' '], close + post);
  }

  lemma TailGroup<T>(a: seq<T>, b: seq<T>, c: seq<T>, d: seq<T>, e: seq<T>)
    ensures a + b + c + d + e == a + (b + c + d + e)
  {
  }

  lemma Regroup<T>(a: seq<T>, b: seq<T>, c: seq<T>, d: seq<T>, e: seq<T>)
    ensures a + b + c + d + e == a + (b + c) + (d + e)
  {
  }

  lemma MiddleSlice<T>(a: seq<T>, b: seq<T>, c: seq<T>)
    ensures (a + b + c)[|a|..|a| + |b|] == b
  {
  }

  /** `str::replace`: every non-overlapping occurrence of `pat`, scanning from
      the left, replaced by `rep`. */
  function ReplaceAll(s: string, pat: string, rep: string): string
    requires |pat| > 0
    decreases |s|
  {
    if |s| < |pat| then s
    else if s[..|pat|] == pat then rep + ReplaceAll(s[|pat|..], pat, rep)
    else [s[0]] + ReplaceAll(s[1..], pat, rep)
  }

  /** An occurrence in a suffix is an occurrence in the whole string, shifted
      by the length of what was cut off. */
  lemma SuffixOccurrence(s: string, pat: string, d: nat, k: nat)
    requires d <= |s|
    ensures OccursAt(s[d..], pat, k) <==> OccursAt(s, pat, k + d)
  {
    if k + |pat| <= |s| - d {
      assert s[d..][k..k + |pat|] == s[k + d..k + d + |pat|];
    }
  }

  /** A string without `pat` is left as it is. */
  lemma {:induction false} ReplaceAllWithoutPattern(s: string, pat: string, rep: string)
    requires |pat| > 0
    requires forall k: nat :: !OccursAt(s, pat, k)
    ensures ReplaceAll(s, pat, rep) == s
    decreases |s|
  {
    if |s| >= |pat| {
      assert !OccursAt(s, pat, 0);
      forall k: nat ensures !OccursAt(s[1..], pat, k) {
        SuffixOccurrence(s, pat, 1, k);
      }
      ReplaceAllWithoutPattern(s[1..], pat, rep);
    }
  }

  /** The text before the first occurrence of `pat` is kept, that occurrence
      becomes `rep`, and the replacement goes on after it. */
  lemma ReplaceAllAtFirst(s: string, pat: string, rep: string, i: nat)
    requires |pat| > 0 && FindFrom(s, pat, 0) == Some(i)
    ensures i + |pat| <= |s|
    ensures ReplaceAll(s, pat, rep) == s[..i] + rep + ReplaceAll(s[i + |pat|..], pat, rep)
  {
    assert FirstOccurrence(s, pat, i);
    ReplaceAllAt(s, pat, rep, i);
  }

  /** `pat` occurs at `i` and nowhere before. */
  predicate FirstOccurrence(s: string, pat: string, i: nat) {
    OccursAt(s, pat, i) && NoMatchBefore(s, pat, i)
  }

  /** `pat` occurs nowhere before `n`. */
  predicate NoMatchBefore(s: string, pat: string, n: nat) {
    forall k: nat :: k < n ==> !OccursAt(s, pat, k)
  }

  lemma ReplaceAllAt(s: string, pat: string, rep: string, i: nat)
    requires |pat| > 0 && FirstOccurrence(s, pat, i)
    ensures ReplaceAll(s, pat, rep) == s[..i] + rep + ReplaceAll(s[i + |pat|..], pat, rep)
  {
    var a, x := s[..i], s[i..];
    assert s == a + x && x[|pat|..] == s[i + |pat|..];
    assert x[..|pat|] == pat;
    ReplaceAllAfter(a, x, pat, rep);
  }

  /** `ReplaceAllAt` with the text split at the occurrence. */
  lemma {:induction false} ReplaceAllAfter(a: string, x: string, pat: string, rep: string)
    requires |pat| > 0 && |pat| <= |x| && x[..|pat|] == pat
    requires NoMatchBefore(a + x, pat, |a|)
    ensures ReplaceAll(a + x, pat, rep) == a + rep + ReplaceAll(x[|pat|..], pat, rep)
    decreases |a|
  {
    if a == [] {
      MatchAtHead(x, pat, rep);
    } else {
      ShiftPrefix(a, x, pat);
      ReplaceAllAfter(a[1..], x, pat, rep);
      ReplaceAllAfterCons(a, x, pat, rep);
    }
  }

  lemma MatchAtHead(x: string, pat: string, rep: string)
    requires |pat| > 0 && |pat| <= |x| && x[..|pat|] == pat
    ensures ReplaceAll([] + x, pat, rep) == [] + rep + ReplaceAll(x[|pat|..], pat, rep)
  {
    assert [] + x == x;
    MatchReplacedAt(x, [] + x, pat, rep, ReplaceAll(x[|pat|..], pat, rep));
  }

  /** A match at the head is replaced first. */
  lemma MatchReplacedAt(x: string, whole: string, pat: string, rep: string, tail: string)
    requires |pat| > 0 && |pat| <= |x| && x[..|pat|] == pat && whole == x
    requires tail == ReplaceAll(x[|pat|..], pat, rep)
    ensures ReplaceAll(whole, pat, rep) == [] + rep + tail
  {
    assert [] + rep + tail == rep + tail;
  }

  lemma ReplaceAllAfterCons(a: string, x: string, pat: string, rep: string)
    requires |pat| > 0 && |pat| <= |x| && |a| > 0 && !OccursAt([a[0]] + (a[1..] + x), pat, 0)
    requires ReplaceAll(a[1..] + x, pat, rep) == a[1..] + rep + ReplaceAll(x[|pat|..], pat, rep)
    ensures ReplaceAll(a + x, pat, rep) == a + rep + ReplaceAll(x[|pat|..], pat, rep)
  {
    ConsSplit(a, x);
    ConsSplit(a, rep + ReplaceAll(x[|pat|..], pat, rep));
    HeadKeptBefore(a[0], a[1..] + x, a + x, pat, rep, a[1..], ReplaceAll(x[|pat|..], pat, rep), a);
  }

  /** `KeepHead` over names for the pieces. */
  lemma HeadKeptBefore(c: char, t: string, whole: string, pat: string, rep: string,
                       mid: string, tail: string, front: string)
    requires |pat| > 0 && whole == [c] + t && front == [c] + mid && !OccursAt(whole, pat, 0)
    requires ReplaceAll(t, pat, rep) == mid + rep + tail
    ensures ReplaceAll(whole, pat, rep) == front + rep + tail
  {
    KeepHead(c, t, pat, rep);
    assert [c] + (mid + rep + tail) == front + rep + tail;
  }

  lemma ShiftPrefix(a: string, x: string, pat: string)
    requires |a| > 0 && NoMatchBefore(a + x, pat, |a|)
    ensures !OccursAt([a[0]] + (a[1..] + x), pat, 0)
    ensures NoMatchBefore(a[1..] + x, pat, |a| - 1)
  {
    assert (a + x)[1..] == a[1..] + x;
    assert [a[0]] + (a[1..] + x) == a + x;
    assert !OccursAt(a + x, pat, 0);
    forall k: nat | k < |a| - 1 ensures !OccursAt(a[1..] + x, pat, k) {
      SuffixOccurrence(a + x, pat, 1, k);
    }
  }

  /** A head character that starts no match is kept in front of the
      replacement of the rest. */
  lemma KeepHead(c: char, t: string, pat: string, rep: string)
    requires |pat| > 0
    requires !OccursAt([c] + t, pat, 0)
    ensures ReplaceAll([c] + t, pat, rep) == [c] + ReplaceAll(t, pat, rep)
  {
    assert ([c] + t)[1..] == t;
  }

  lemma ConsSplit<T>(a: seq<T>, x: seq<T>)
    requires |a| > 0
    ensures [a[0]] + (a[1..] + x) == a + x
  {
    assert [a[0]] + a[1..] == a;
  }

  /** A pattern that starts with a character the text lacks does not occur in it. */
  lemma AbsentByHead(s: string, pat: string)
    requires |pat| > 0 && pat[0] !in s
    ensures forall k: nat :: !OccursAt(s, pat, k)
  {
    forall k: nat ensures !OccursAt(s, pat, k) {
      OccurrenceChar(s, pat, k, 0);
    }
  }

  /** In `a + pat + b`, where the head of `pat` is in neither `a` nor `b`,
      exactly the middle `pat` is replaced. */
  lemma ReplaceAllSingle(a: string, pat: string, b: string, rep: string)
    requires |pat| > 0 && pat[0] !in a && pat[0] !in b
    ensures ReplaceAll(a + pat + b, pat, rep) == a + rep + b
  {
    var s := a + pat + b;
    forall k: nat | k < |a| ensures !OccursAt(s, pat, k) {
      OccurrenceChar(s, pat, k, 0);
      assert s[k] == a[k];
    }
    ReplaceAllAfterPrefix(a, pat, b, rep);
  }

  /** In `a + pat + b`, where `pat` first occurs right after `a` and `b`
      holds no character that starts it, exactly that `pat` is replaced. */
  lemma ReplaceAllAfterPrefix(a: string, pat: string, b: string, rep: string)
    requires |pat| > 0 && pat[0] !in b
    requires forall k: nat :: k < |a| ==> !OccursAt(a + pat + b, pat, k)
    ensures ReplaceAll(a + pat + b, pat, rep) == a + rep + b
  {
    var s := a + pat + b;
    assert s[|a|..|a| + |pat|] == pat;
    assert FirstOccurrence(s, pat, |a|);
    ReplaceAllAt(s, pat, rep, |a|);
    assert s[..|a|] == a && s[|a| + |pat|..] == b;
    AbsentByHead(b, pat);
    ReplaceAllWithoutPattern(b, pat, rep);
  }

  /** Any prefix of the replaced text either is the same prefix of the input
      or already holds a character of the replacement. */
  lemma {:induction false} ReplaceAllPrefix(t: string, pat: string, rep: string, n: nat)
    requires |pat| > 0 && |rep| > 0
    requires n <= |ReplaceAll(t, pat, rep)|
    ensures || (n <= |t| && ReplaceAll(t, pat, rep)[..n] == t[..n])
            || (exists i :: 0 <= i < n && ReplaceAll(t, pat, rep)[i] in rep)
    decreases |t|
  {
    var r := ReplaceAll(t, pat, rep);
    if n == 0 || |t| < |pat| {
    } else if t[..|pat|] == pat {
      assert r[0] == rep[0];
    } else {
      var r' := ReplaceAll(t[1..], pat, rep);
      assert r == [t[0]] + r';
      ReplaceAllPrefix(t[1..], pat, rep, n - 1);
      if n - 1 <= |t[1..]| && r'[..n - 1] == t[1..][..n - 1] {
        assert r[..n] == [t[0]] + r'[..n - 1];
        assert t[..n] == [t[0]] + t[1..][..n - 1];
      } else {
        var i :| 0 <= i < n - 1 && r'[i] in rep;
        assert r[i + 1] == r'[i];
      }
    }
  }

  /** The characters of an occurrence are those of the pattern. */
  lemma OccurrenceChar(s: string, p: string, k: nat, m: nat)
    requires m < |p|
    ensures OccursAt(s, p, k) ==> k + m < |s| && s[k + m] == p[m]
  {
    if OccursAt(s, p, k) {
      assert s[k..k + |p|][m] == s[k + m];
    }
  }

  /** The head of `[t[0]] + r'` cannot match `p` when `r'` is the replacement
      of `t[1..]`, `t` does not start with `p`, and the replacement text shares
      no character with `p`. */
  lemma NoMatchAtHead(t: string, q: string, rep: string, p: string)
    requires |q| > 0 && |rep| > 0 && |p| > 0 && |t| > 0 && Disjoint(rep, p)
    requires |p| <= |t| ==> t[..|p|] != p
    ensures !OccursAt([t[0]] + ReplaceAll(t[1..], q, rep), p, 0)
  {
    var r' := ReplaceAll(t[1..], q, rep);
    var r := [t[0]] + r';
    if |p| <= |r| {
      ReplaceAllPrefix(t[1..], q, rep, |p| - 1);
      if |p| - 1 <= |t[1..]| && r'[..|p| - 1] == t[1..][..|p| - 1] {
        assert r[..|p|] == [t[0]] + r'[..|p| - 1];
        assert t[..|p|] == [t[0]] + t[1..][..|p| - 1];
      } else {
        var i :| 0 <= i < |p| - 1 && r'[i] in rep;
        assert r[i + 1] == r'[i];
        OccurrenceChar(r, p, 0, i + 1);
        assert p[i + 1] in p;
      }
    }
  }

  /** A string that starts with the replacement text cannot match `p` at any
      position inside that text. */
  lemma NoMatchInReplacement(rep: string, rest: string, p: string, k: nat)
    requires |p| > 0 && Disjoint(rep, p) && k < |rep|
    ensures !OccursAt(rep + rest, p, k)
  {
    var r := rep + rest;
    assert r[k] == rep[k] && rep[k] in rep;
    OccurrenceChar(r, p, k, 0);
    assert p[0] in p;
  }

  /** After `replace(pat, rep)` no `pat` is left, provided the replacement is
      non-empty and shares no character with the pattern. */
  lemma {:induction false} ReplaceAllRemovesPattern(t: string, pat: string, rep: string)
    requires |pat| > 0 && |rep| > 0 && Disjoint(rep, pat)
    ensures forall k: nat :: !OccursAt(ReplaceAll(t, pat, rep), pat, k)
    decreases |t|
  {
    var r := ReplaceAll(t, pat, rep);
    if |t| < |pat| {
    } else if t[..|pat|] == pat {
      var r' := ReplaceAll(t[|pat|..], pat, rep);
      assert r == rep + r';
      ReplaceAllRemovesPattern(t[|pat|..], pat, rep);
      forall k: nat ensures !OccursAt(r, pat, k) {
        if k < |rep| {
          NoMatchInReplacement(rep, r', pat, k);
        } else {
          SuffixOccurrence(r, pat, |rep|, k - |rep|);
          assert r[|rep|..] == r';
        }
      }
    } else {
      var r' := ReplaceAll(t[1..], pat, rep);
      assert r == [t[0]] + r';
      ReplaceAllRemovesPattern(t[1..], pat, rep);
      forall k: nat ensures !OccursAt(r, pat, k) {
        if k == 0 {
          NoMatchAtHead(t, pat, rep, pat);
        } else {
          SuffixOccurrence(r, pat, 1, k - 1);
          assert r[1..] == r';
        }
      }
    }
  }

  /** Replacing `q` cannot create an occurrence of a pattern `p` the input did
      not have, when the replacement shares no character with `p`. */
  lemma {:induction false} ReplaceAllKeepsAbsence(t: string, q: string, rep: string, p: string)
    requires |q| > 0 && |rep| > 0 && |p| > 0 && Disjoint(rep, p)
    requires forall k: nat :: !OccursAt(t, p, k)
    ensures forall k: nat :: !OccursAt(ReplaceAll(t, q, rep), p, k)
    decreases |t|
  {
    var r := ReplaceAll(t, q, rep);
    if |t| < |q| {
    } else if t[..|q|] == q {
      var r' := ReplaceAll(t[|q|..], q, rep);
      assert r == rep + r';
      forall k: nat ensures !OccursAt(t[|q|..], p, k) {
        SuffixOccurrence(t, p, |q|, k);
      }
      ReplaceAllKeepsAbsence(t[|q|..], q, rep, p);
      forall k: nat ensures !OccursAt(r, p, k) {
        if k < |rep| {
          NoMatchInReplacement(rep, r', p, k);
        } else {
          SuffixOccurrence(r, p, |rep|, k - |rep|);
          assert r[|rep|..] == r';
        }
      }
    } else {
      var r' := ReplaceAll(t[1..], q, rep);
      assert r == [t[0]] + r';
      forall k: nat ensures !OccursAt(t[1..], p, k) {
        SuffixOccurrence(t, p, 1, k);
      }
      ReplaceAllKeepsAbsence(t[1..], q, rep, p);
      forall k: nat ensures !OccursAt(r, p, k) {
        if k == 0 {
          assert !OccursAt(t, p, 0);
          NoMatchAtHead(t, q, rep, p);
        } else {
          SuffixOccurrence(r, p, 1, k - 1);
          assert r[1..] == r';
        }
      }
    }
  }

  predicate AllWhitespace(s: string) {
    forall k :: 0 <= k < |s| ==> IsWhitespace(s[k])
  }

  /** `str::trim_start`. */
  function TrimStart(s: string): (r: string)
    ensures |r| <= |s| && r == s[|s| - |r|..]
    ensures AllWhitespace(s[..|s| - |r|])
    ensures |r| > 0 ==> !IsWhitespace(r[0])
    decreases |s|
  {
    if |s| > 0 && IsWhitespace(s[0]) then
      var r := TrimStart(s[1..]);
      WhitespaceHead(s, |s| - |r|);
      r
    else s
  }

  /** A whitespace character in front of a whitespace run extends it. */
  lemma WhitespaceHead(s: string, n: nat)
    requires 0 < n <= |s| && IsWhitespace(s[0]) && AllWhitespace(s[1..][..n - 1])
    ensures AllWhitespace(s[..n]) && s[1..][n - 1..] == s[n..]
  {
    forall k | 1 <= k < n ensures IsWhitespace(s[k]) {
      assert s[k] == s[1..][..n - 1][k - 1];
    }
  }

  /** `str::trim_end`. */
  function TrimEnd(s: string): (r: string)
    ensures |r| <= |s| && r == s[..|r|]
    ensures AllWhitespace(s[|r|..])
    ensures |r| > 0 ==> !IsWhitespace(r[|r| - 1])
    decreases |s|
  {
    if |s| > 0 && IsWhitespace(s[|s| - 1]) then
      var r := TrimEnd(s[..|s| - 1]);
      assert s[|r|..] == s[..|s| - 1][|r|..] + [s[|s| - 1]];
      r
    else s
  }

  /** `r` is the slice of `s` that starts at `i`, with only whitespace
      around it. */
  predicate TrimmedAt(s: string, r: string, i: nat) {
    && i + |r| <= |s| && r == s[i..i + |r|]
    && AllWhitespace(s[..i])
    && AllWhitespace(s[i + |r|..])
  }

  lemma SliceOfSuffix(s: string, i: nat, n: nat)
    requires i + n <= |s|
    ensures s[i..][..n] == s[i..i + n] && s[i..][n..] == s[i + n..]
  {
  }

  /** `str::trim`: the slice left after dropping leading and trailing
      whitespace. */
  function Trim(s: string): (r: string)
    ensures exists i: nat :: TrimmedAt(s, r, i)
    ensures |r| > 0 ==> !IsWhitespace(r[0]) && !IsWhitespace(r[|r| - 1])
  {
    TrimmedBoth(s);
    TrimEnd(TrimStart(s))
  }

  lemma TrimmedBoth(s: string)
    ensures TrimmedAt(s, TrimEnd(TrimStart(s)), |s| - |TrimStart(s)|)
  {
    TrimmedFrom(s, TrimStart(s), TrimEnd(TrimStart(s)));
  }

  /** A prefix of a suffix, with whitespace on both sides, is trimmed. */
  lemma TrimmedFrom(s: string, t: string, r: string)
    requires |t| <= |s| && t == s[|s| - |t|..] && AllWhitespace(s[..|s| - |t|])
    requires |r| <= |t| && r == t[..|r|] && AllWhitespace(t[|r|..])
    ensures TrimmedAt(s, r, |s| - |t|)
  {
    SliceOfSuffix(s, |s| - |t|, |r|);
  }

  /** A string with no whitespace at either end, followed by a blank, trims
      back to itself. */
  lemma TrimBlankAfter(x: string)
    requires |x| > 0 ==> !IsWhitespace(x[0]) && !IsWhitespace(x[|x| - 1])
    ensures Trim(x + [' ']) == x
  {
    var s := x + [' '];
    assert s[..|s| - 1] == x;
    if |x| == 0 {
      assert s[1..] == [];
    } else {
      assert TrimStart(s) == s;
    }
  }

  lemma SliceOfSlice(s: string, i: nat, j: nat, k: nat, n: nat)
    requires i <= j <= |s| && k + n <= j - i
    ensures s[i..j][k..k + n] == s[i + k..i + k + n]
  {
    var a, b := s[i..j][k..k + n], s[i + k..i + k + n];
    assert forall m :: 0 <= m < n ==> a[m] == b[m];
  }

  /** A slice of a string without `p` has no `p` either. */
  lemma SliceKeepsAbsence(s: string, i: nat, j: nat, p: string)
    requires i <= j <= |s|
    requires forall k: nat :: !OccursAt(s, p, k)
    ensures forall k: nat :: !OccursAt(s[i..j], p, k)
  {
    forall k: nat ensures !OccursAt(s[i..j], p, k) {
      if k + |p| <= j - i {
        SliceOfSlice(s, i, j, k, |p|);
      }
      assert !OccursAt(s, p, i + k);
    }
  }

  lemma TrimKeepsAbsence(s: string, p: string)
    requires forall k: nat :: !OccursAt(s, p, k)
    ensures forall k: nat :: !OccursAt(Trim(s), p, k)
  {
    TrimmedBoth(s);
    var i := |s| - |TrimStart(s)|;
    SliceKeepsAbsence(s, i, i + |Trim(s)|, p);
  }

  /** `str::trim_end_matches(c)`: every trailing `c` removed. */
  function TrimEndMatches(s: string, c: char): (r: string)
    ensures |r| <= |s| && r == s[..|r|]
    ensures forall k :: |r| <= k < |s| ==> s[k] == c
    ensures |r| > 0 ==> r[|r| - 1] != c
    decreases |s|
  {
    if |s| > 0 && s[|s| - 1] == c then TrimEndMatches(s[..|s| - 1], c) else s
  }

  function IndexOfChar(s: string, c: char): (r: Option<nat>)
    ensures r.Some? ==> r.value < |s| && s[r.value] == c && c !in s[..r.value]
    ensures r.None? ==> c !in s
  {
    if |s| == 0 then None
    else if s[0] == c then Some(0)
    else match IndexOfChar(s[1..], c)
      case None => None
      case Some(i) =>
        assert s[..i + 1] == [s[0]] + s[1..][..i];
        Some(i + 1)
  }

  /** The position of the first `c` is the one before which no `c` occurs. */
  lemma IndexOfCharAt(s: string, c: char, n: nat)
    requires n < |s| && s[n] == c && c !in s[..n]
    ensures IndexOfChar(s, c) == Some(n)
  {
    assert s[n] in s;
    var i := IndexOfChar(s, c).value;
    NotInPrefix(s, c, n, i);
    NotInPrefix(s, c, i, n);
  }

  lemma NotInPrefix(s: string, c: char, n: nat, i: nat)
    requires n <= |s|
    ensures c !in s[..n] && i < n ==> s[i] != c
  {
    if i < n {
      assert s[..n][i] == s[i];
    }
  }

  /** `parts.join(sep)`. */
  function Join(parts: seq<string>, sep: char): string
  {
    if |parts| == 0 then ""
    else if |parts| == 1 then parts[0]
    else parts[0] + [sep] + Join(parts[1..], sep)
  }

  lemma JoinThree(a: string, b: string, c: string, sep: char)
    ensures Join([a, b, c], sep) == a + [sep] + b + [sep] + c
  {
    assert [a, b, c][1..] == [b, c];
    assert [b, c][1..] == [c];
    assert Join([b, c], sep) == b + [sep] + c;
    assert a + [sep] + (b + [sep] + c) == a + [sep] + b + [sep] + c;
  }

  /** `str::split(sep)`: the pieces between the separators, empty ones
      included. */
  function Split(s: string, sep: char): (parts: seq<string>)
    ensures |parts| >= 1
    ensures forall k :: 0 <= k < |parts| ==> sep !in parts[k]
    decreases |s|
  {
    match IndexOfChar(s, sep)
    case None => [s]
    case Some(i) =>
      var rest := Split(s[i + 1..], sep);
      var parts := [s[..i]] + rest;
      assert parts[1..] == rest;
      parts
  }

  /** Joining the pieces back with the separator gives the input. */
  lemma {:induction false} JoinSplit(s: string, sep: char)
    ensures Join(Split(s, sep), sep) == s
    decreases |s|
  {
    match IndexOfChar(s, sep) {
    case None =>
    case Some(i) =>
      SplitAt(s, i, sep);
      JoinSplit(s[i + 1..], sep);
      JoinCons(s[..i], Split(s[i + 1..], sep), sep);
      assert s == s[..i] + [sep] + s[i + 1..];
    }
  }

  lemma JoinCons(x: string, rest: seq<string>, sep: char)
    requires |rest| >= 1
    ensures Join([x] + rest, sep) == x + [sep] + Join(rest, sep)
  {
    assert ([x] + rest)[1..] == rest;
  }

  /** Splitting a join of separator-free pieces gives the pieces back. */
  lemma {:induction false} SplitJoin(parts: seq<string>, sep: char)
    requires |parts| >= 1
    requires forall k :: 0 <= k < |parts| ==> sep !in parts[k]
    ensures Split(Join(parts, sep), sep) == parts
  {
    var s := Join(parts, sep);
    if |parts| == 1 {
      assert IndexOfChar(s, sep).None?;
    } else {
      var rest := Join(parts[1..], sep);
      assert s == parts[0] + [sep] + rest;
      var n := |parts[0]|;
      assert s[n] == sep && s[..n] == parts[0];
      IndexOfCharAt(s, sep, n);
      assert s[n + 1..] == rest;
      assert Split(s, sep) == [parts[0]] + Split(rest, sep);
      SplitJoin(parts[1..], sep);
      assert parts == [parts[0]] + parts[1..];
    }
  }

  /** Splitting at a separator that is glued between two strings splits both
      halves independently. */
  lemma {:induction false} SplitConcat(a: string, b: string, sep: char)
    ensures Split(a + [sep] + b, sep) == Split(a, sep) + Split(b, sep)
    decreases |a|
  {
    match IndexOfChar(a, sep) {
    case None =>
      SplitConcatLast(a, b, sep);
    case Some(i) =>
      SplitConcat(a[i + 1..], b, sep);
      SplitConcatStep(a, b, sep, i);
    }
  }

  lemma SplitConcatLast(a: string, b: string, sep: char)
    requires sep !in a
    ensures Split(a + [sep] + b, sep) == Split(a, sep) + Split(b, sep)
  {
    var s := a + [sep] + b;
    assert s[..|a|] == a && s[|a| + 1..] == b;
    SplitAt(s, |a|, sep);
    SplitWithout(a, sep);
  }

  lemma SplitConcatStep(a: string, b: string, sep: char, i: nat)
    requires i < |a| && a[i] == sep && sep !in a[..i]
    requires Split(a[i + 1..] + [sep] + b, sep) == Split(a[i + 1..], sep) + Split(b, sep)
    ensures Split(a + [sep] + b, sep) == Split(a, sep) + Split(b, sep)
  {
    GluedSlices(a, b, sep, i);
    SplitAt(a + [sep] + b, i, sep);
    SplitAt(a, i, sep);
    ConsAssociates(a[..i], Split(a[i + 1..], sep), Split(b, sep));
  }

  lemma GluedSlices(a: string, b: string, sep: char, i: nat)
    requires i < |a|
    ensures (a + [sep] + b)[..i] == a[..i]
    ensures (a + [sep] + b)[i] == a[i]
    ensures (a + [sep] + b)[i + 1..] == a[i + 1..] + [sep] + b
  {
  }

  lemma ConsAssociates(x: string, y: seq<string>, z: seq<string>)
    ensures [x] + (y + z) == ([x] + y) + z
  {
  }

  /** A string without the separator is one piece. */
  lemma SplitWithout(s: string, sep: char)
    requires sep !in s
    ensures Split(s, sep) == [s]
  {
    assert IndexOfChar(s, sep).None?;
  }

  /** Splitting at the first separator. */
  lemma SplitAt(s: string, i: nat, sep: char)
    requires i < |s| && s[i] == sep && sep !in s[..i]
    ensures Split(s, sep) == [s[..i]] + Split(s[i + 1..], sep)
  {
    IndexOfCharAt(s, sep, i);
  }

  /** `.filter(|x| x.len() > 0)` over a list of strings. */
  function NonEmpty(parts: seq<string>): (r: seq<string>)
    ensures |r| <= |parts|
    ensures forall x :: x in r <==> x in parts && |x| > 0
  {
    if |parts| == 0 then []
    else (if |parts[0]| > 0 then [parts[0]] else []) + NonEmpty(parts[1..])
  }

  /** The non-empty lines of a text: `split("\n")` followed by dropping the
      empty pieces. */
  function NonEmptyLines(s: string): (r: seq<string>)
    ensures forall k :: 0 <= k < |r| ==> |r[k]| > 0 && '\n' !in r[k]
    ensures forall x :: x in r <==> x in Split(s, '\n') && |x| > 0
  {
    NonEmpty(Split(s, '\n'))
  }
}
