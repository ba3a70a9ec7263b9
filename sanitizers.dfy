/**
 * The outline symbol sanitizer of the cquery language-server client
 * (pkg/nuclide-cquery-lsp-rpc/lib/outline/sanitizers.js).
 *
 * Names are strings of characters. The regular expressions of the source are
 * written out as explicit searches; symbol names are taken to hold no line
 * terminators, so the regex `.` matches every character.
 */
module Sanitizers {
  import opened Wrappers

  const NON_CLASS_OPERATOR_PREFIX: string := "operator ("
  const CLASS_OPERATOR: string := "operator()"

  /** The literal tokens of `/(.*) _Nonnull \((.*)\) (.*)/`. */
  const NONNULL_OPEN: string := " _Nonnull ("
  const ARGS_CLOSE: string := ") "

  /** The two alternatives of `/ (__strong|_Nonnull)/g`. */
  const STRONG_QUALIFIER: string := " __strong"
  const NONNULL_QUALIFIER: string := " _Nonnull"

  const ANON: string := "(anon)"
  const ANONYMOUS_NAMESPACE: string := "(anonymous namespace)"

  // ---------------------------------------------------------------------------
  // Substring occurrences

  /** `pat` occurs in `s` starting at index `i`. */
  predicate OccursAt(s: string, pat: string, i: int)
  {
    0 <= i && i + |pat| <= |s| && s[i..i + |pat|] == pat
  }

  ghost predicate Occurs(s: string, pat: string)
  {
    exists i :: OccursAt(s, pat, i)
  }

  /** An occurrence inside a prefix of `s` is an occurrence in `s`, and back. */
  lemma OccursAtPrefix(s: string, n: nat, pat: string, i: int)
    requires n <= |s|
    requires i + |pat| <= n
    ensures OccursAt(s[..n], pat, i) <==> OccursAt(s, pat, i)
  {
    if 0 <= i {
      assert s[..n][i..i + |pat|] == s[i..i + |pat|];
    }
  }

  /** An occurrence inside a suffix of `s` is an occurrence in `s`. */
  lemma OccursAtSuffix(s: string, d: nat, pat: string, i: int)
    requires d <= |s|
    ensures OccursAt(s[d..], pat, i) <==> (0 <= i && OccursAt(s, pat, d + i))
  {
    if 0 <= i && d + i + |pat| <= |s| {
      assert s[d..][i..i + |pat|] == s[d + i..d + i + |pat|];
    }
  }

  /** No occurrence in `s` means no occurrence in any suffix of `s`. */
  lemma NoOccurrenceInSuffix(s: string, d: nat, pat: string)
    requires d <= |s|
    requires !Occurs(s, pat)
    ensures !Occurs(s[d..], pat)
  {
    if Occurs(s[d..], pat) {
      var i :| OccursAt(s[d..], pat, i);
      OccursAtSuffix(s, d, pat, i);
      assert false;
    }
  }

  /** An occurrence in the part `b` of `a + b`. */
  lemma OccursAtAppend(a: string, b: string, pat: string, i: int)
    requires |a| <= i
    ensures OccursAt(a + b, pat, i) <==> OccursAt(b, pat, i - |a|)
  {
    if i + |pat| <= |a| + |b| {
      assert (a + b)[i..i + |pat|] == b[i - |a|..i - |a| + |pat|];
    }
  }

  /** A pattern with a character that `s` lacks does not occur in `s`. */
  lemma MissingCharNoOccurrence(s: string, pat: string, k: nat)
    requires k < |pat| && pat[k] !in s
    ensures !Occurs(s, pat)
  {
    forall i ensures !OccursAt(s, pat, i) {
      if 0 <= i && i + |pat| <= |s| {
        assert s[i + k] in s;
        assert s[i..i + |pat|][k] == s[i + k];
      }
    }
  }

  /** String.prototype.lastIndexOf for one character: -1 when absent. */
  function LastIndexOf(s: string, c: char): (k: int)
    ensures -1 <= k < |s|
    ensures k == -1 <==> c !in s
    ensures k >= 0 ==> s[k] == c && c !in s[k + 1..]
  {
    if s == [] then -1
    else if s[|s| - 1] == c then |s| - 1
    else
      var init := s[..|s| - 1];
      assert s == init + [s[|s| - 1]];
      var k := LastIndexOf(init, c);
      assert k >= 0 ==> s[k + 1..] == init[k + 1..] + [s[|s| - 1]];
      k
  }

  /** An occurrence in `s` that ends before its last character is one in `s` minus that character. */
  lemma LastOccurrenceStep(s: string, init: string, pat: string, k: int)
    requires |pat| <= |s| && s[|s| - |pat|..] != pat && init == s[..|s| - 1]
    requires k >= 0 ==> OccursAt(init, pat, k)
    requires forall j :: k < j ==> !OccursAt(init, pat, j)
    ensures k >= 0 ==> OccursAt(s, pat, k)
    ensures forall j :: k < j ==> !OccursAt(s, pat, j)
  {
    if k >= 0 { OccursAtPrefix(s, |s| - 1, pat, k); }
    forall j | k < j ensures !OccursAt(s, pat, j) {
      if j + |pat| < |s| {
        OccursAtPrefix(s, |s| - 1, pat, j);
      }
    }
  }

  /** The index of the last occurrence of `pat` in `s`, or -1 when there is none. */
  function LastOccurrence(s: string, pat: string): (k: int)
    ensures -1 <= k
    ensures k >= 0 ==> OccursAt(s, pat, k)
    ensures forall j :: k < j ==> !OccursAt(s, pat, j)
    decreases |s|
  {
    if |s| < |pat| then -1
    else if s[|s| - |pat|..] == pat then |s| - |pat|
    else
      var k := LastOccurrence(s[..|s| - 1], pat);
      LastOccurrenceStep(s, s[..|s| - 1], pat, k);
      k
  }

  // ---------------------------------------------------------------------------
  // Stage 1: operator names

  /**
   * `sanitizeOperator`: drops the prefix `"operator ("` and turns the class
   * call operator `"operator()"` into `"operator"`; anything else is kept.
   */
  function SanitizeOperator(name: string): (r: string)
    ensures NON_CLASS_OPERATOR_PREFIX <= name ==>
              NON_CLASS_OPERATOR_PREFIX + r == name && |r| == |name| - 10
    ensures name == CLASS_OPERATOR ==> r + "()" == name
    ensures !(NON_CLASS_OPERATOR_PREFIX <= name) && name != CLASS_OPERATOR ==> r == name
    ensures |r| <= |name|
  {
    if NON_CLASS_OPERATOR_PREFIX <= name then
      assert |NON_CLASS_OPERATOR_PREFIX| == 10 && NON_CLASS_OPERATOR_PREFIX[8] != CLASS_OPERATOR[8];
      assert name == NON_CLASS_OPERATOR_PREFIX + name[|NON_CLASS_OPERATOR_PREFIX|..];
      name[|NON_CLASS_OPERATOR_PREFIX|..]
    else if name == CLASS_OPERATOR then "operator"
    else name
  }

  // ---------------------------------------------------------------------------
  // Stage 2: Objective-C nullability and ownership annotations

  /** The three captures of `/(.*) _Nonnull \((.*)\) (.*)/`. */
  datatype NonnullParts = NonnullParts(ret: string, args: string, name: string)

  /** The regex can match with its first capture ending at index `i`. */
  ghost predicate NonnullMatchesAt(s: string, i: int)
  {
    OccursAt(s, NONNULL_OPEN, i) && Occurs(s[i + |NONNULL_OPEN|..], ARGS_CLOSE)
  }

  /** The last `" _Nonnull ("` that fits before `bound` is the last in `s` that does. */
  lemma LastNonnullBefore(s: string, bound: nat)
    requires bound <= |s|
    ensures var i := LastOccurrence(s[..bound], NONNULL_OPEN);
            (i >= 0 ==> OccursAt(s, NONNULL_OPEN, i) && i + |NONNULL_OPEN| <= bound) &&
            forall i' :: i < i' && i' + |NONNULL_OPEN| <= bound ==> !OccursAt(s, NONNULL_OPEN, i')
  {
    var i := LastOccurrence(s[..bound], NONNULL_OPEN);
    if i >= 0 { OccursAtPrefix(s, bound, NONNULL_OPEN, i); }
    forall i' | i < i' && i' + |NONNULL_OPEN| <= bound ensures !OccursAt(s, NONNULL_OPEN, i') {
      OccursAtPrefix(s, bound, NONNULL_OPEN, i');
    }
  }

  /** Splitting at the last `") "` leaves no `") "` after it. */
  lemma SplitAtLastClose(tail: string)
    requires LastOccurrence(tail, ARGS_CLOSE) >= 0
    ensures var j := LastOccurrence(tail, ARGS_CLOSE);
            tail == tail[..j] + ARGS_CLOSE + tail[j + |ARGS_CLOSE|..] &&
            !Occurs(tail[j + |ARGS_CLOSE|..], ARGS_CLOSE)
  {
    var j := LastOccurrence(tail, ARGS_CLOSE);
    var name := tail[j + |ARGS_CLOSE|..];
    assert tail == tail[..j] + tail[j..j + |ARGS_CLOSE|] + name;
    forall m ensures !OccursAt(name, ARGS_CLOSE, m) {
      OccursAtSuffix(tail, j + |ARGS_CLOSE|, ARGS_CLOSE, m);
    }
  }

  /** Splitting at a `" _Nonnull ("` and at the last `") "` after it gives the three captures. */
  lemma NonnullCaptures(s: string, i: nat)
    requires OccursAt(s, NONNULL_OPEN, i)
    requires LastOccurrence(s[i + |NONNULL_OPEN|..], ARGS_CLOSE) >= 0
    ensures var tail := s[i + |NONNULL_OPEN|..];
            var j := LastOccurrence(tail, ARGS_CLOSE);
            s == s[..i] + NONNULL_OPEN + tail[..j] + ARGS_CLOSE + tail[j + |ARGS_CLOSE|..]
    ensures var tail := s[i + |NONNULL_OPEN|..];
            !Occurs(tail[LastOccurrence(tail, ARGS_CLOSE) + |ARGS_CLOSE|..], ARGS_CLOSE)
  {
    var tail := s[i + |NONNULL_OPEN|..];
    var j := LastOccurrence(tail, ARGS_CLOSE);
    SplitAtLastClose(tail);
    var ret, args, name := s[..i], tail[..j], tail[j + |ARGS_CLOSE|..];
    assert s == ret + NONNULL_OPEN + tail by {
      assert s == s[..i] + s[i..i + |NONNULL_OPEN|] + s[i + |NONNULL_OPEN|..];
    }
    ConcatFive(s, ret, tail, args, name);
  }

  lemma ConcatFive(s: string, ret: string, tail: string, args: string, name: string)
    requires s == ret + NONNULL_OPEN + tail
    requires tail == args + ARGS_CLOSE + name
    ensures s == ret + NONNULL_OPEN + args + ARGS_CLOSE + name
  {
  }

  /**
   * The leftmost-greedy match of `/(.*) _Nonnull \((.*)\) (.*)/`, restricted
   * to first captures that end before `bound - |NONNULL_OPEN|`. Backtracking
   * tries the first capture from the longest down, so the match takes the
   * last `" _Nonnull ("` whose tail still holds a `") "`, and in that tail the
   * last `") "`.
   */
  function FindNonnull(s: string, bound: nat): (r: Option<NonnullParts>)
    requires bound <= |s|
    decreases bound
  {
    var i := LastOccurrence(s[..bound], NONNULL_OPEN);
    if i < 0 then None
    else
      var tail := s[i + |NONNULL_OPEN|..];
      var j := LastOccurrence(tail, ARGS_CLOSE);
      if j >= 0 then Some(NonnullParts(s[..i], tail[..j], tail[j + |ARGS_CLOSE|..]))
      else FindNonnull(s, i + |NONNULL_OPEN| - 1)
  }

  /** A match `FindNonnull` returns is a true split of `s` around the two literals. */
  lemma {:induction false} FindNonnullSplits(s: string, bound: nat)
    requires bound <= |s|
    ensures var r := FindNonnull(s, bound);
            r.Some? ==> s == r.value.ret + NONNULL_OPEN + r.value.args + ARGS_CLOSE + r.value.name &&
                        |r.value.ret| + |NONNULL_OPEN| <= bound && !Occurs(r.value.name, ARGS_CLOSE)
    decreases bound
  {
    var i := LastOccurrence(s[..bound], NONNULL_OPEN);
    LastNonnullBefore(s, bound);
    if i >= 0 {
      var tail := s[i + |NONNULL_OPEN|..];
      if LastOccurrence(tail, ARGS_CLOSE) >= 0 {
        NonnullCaptures(s, i);
      } else {
        FindNonnullSplits(s, i + |NONNULL_OPEN| - 1);
      }
    }
  }

  /** Where `" _Nonnull ("` does not occur, the regex cannot match. */
  lemma NoMatchWithoutOpen(s: string, lo: int, bound: nat)
    requires forall i :: lo < i && i + |NONNULL_OPEN| <= bound ==> !OccursAt(s, NONNULL_OPEN, i)
    ensures forall i :: lo < i && i + |NONNULL_OPEN| <= bound ==> !NonnullMatchesAt(s, i)
  {
  }

  /** When the last `" _Nonnull ("` before `bound` starts no match, the search moves below it. */
  lemma GreedyStepBelow(s: string, bound: nat, i: nat)
    requires bound <= |s| && i + |NONNULL_OPEN| <= bound
    requires i == LastOccurrence(s[..bound], NONNULL_OPEN)
    requires LastOccurrence(s[i + |NONNULL_OPEN|..], ARGS_CLOSE) < 0
    ensures FindNonnull(s, bound) == FindNonnull(s, i + |NONNULL_OPEN| - 1)
    ensures forall i' :: i <= i' && i' + |NONNULL_OPEN| <= bound ==> !NonnullMatchesAt(s, i')
  {
    LastNonnullBefore(s, bound);
    NoMatchWithoutOpen(s, i, bound);
    assert !NonnullMatchesAt(s, i);
  }

  /** No place after the first capture `FindNonnull` returns, and before `bound`, can start a match. */
  lemma {:induction false} FindNonnullIsGreedy(s: string, bound: nat)
    requires bound <= |s|
    ensures var r := FindNonnull(s, bound);
            forall i :: (r.Some? ==> |r.value.ret| < i) && i + |NONNULL_OPEN| <= bound ==> !NonnullMatchesAt(s, i)
    decreases bound
  {
    var i := LastOccurrence(s[..bound], NONNULL_OPEN);
    if i < 0 || LastOccurrence(s[i + |NONNULL_OPEN|..], ARGS_CLOSE) >= 0 {
      LastNonnullBefore(s, bound);
      NoMatchWithoutOpen(s, i, bound);
    } else {
      LastNonnullBefore(s, bound);
      var below := i + |NONNULL_OPEN| - 1;
      GreedyStepBelow(s, bound, i);
      FindNonnullIsGreedy(s, below);
      var r := FindNonnull(s, below);
      forall i' | (r.Some? ==> |r.value.ret| < i') && i' + |NONNULL_OPEN| <= bound
        ensures !NonnullMatchesAt(s, i')
      {
        if i' + |NONNULL_OPEN| > below { assert i <= i'; }
      }
    }
  }

  /** What `FindNonnull` returns is the regex's match: a true split, greedy in both captures. */
  lemma FindNonnullIsGreedyMatch(s: string, bound: nat)
    requires bound <= |s|
    ensures var r := FindNonnull(s, bound);
            r.Some? ==> s == r.value.ret + NONNULL_OPEN + r.value.args + ARGS_CLOSE + r.value.name
    ensures var r := FindNonnull(s, bound);
            r.Some? ==> |r.value.ret| + |NONNULL_OPEN| <= bound && !Occurs(r.value.name, ARGS_CLOSE)
    ensures var r := FindNonnull(s, bound);
            forall i :: (r.Some? ==> |r.value.ret| < i) && i + |NONNULL_OPEN| <= bound ==> !NonnullMatchesAt(s, i)
  {
    FindNonnullSplits(s, bound);
    FindNonnullIsGreedy(s, bound);
  }

  /** The match of `/(.*) _Nonnull \((.*)\) (.*)/` against a whole name, if any. */
  function NonnullSplit(s: string): (r: Option<NonnullParts>)
    ensures r.Some? ==> s == r.value.ret + NONNULL_OPEN + r.value.args + ARGS_CLOSE + r.value.name
    ensures r.Some? ==> !Occurs(r.value.name, ARGS_CLOSE)
    ensures forall i :: (r.Some? ==> |r.value.ret| < i) ==> !NonnullMatchesAt(s, i)
  {
    FindNonnullIsGreedyMatch(s, |s|);
    FindNonnull(s, |s|)
  }

  /** After an occurrence of `") "` at `|a|`, the next one can only start inside `b`. */
  lemma NoCloseAfter(a: string, b: string)
    requires !Occurs(b, ARGS_CLOSE)
    ensures forall j :: |a| < j ==> !OccursAt(a + ARGS_CLOSE + b, ARGS_CLOSE, j)
  {
    var t := a + ARGS_CLOSE + b;
    forall j | |a| < j ensures !OccursAt(t, ARGS_CLOSE, j) {
      if j == |a| + 1 && j + 2 <= |t| {
        assert t[j] == ' ';
      }
      if j >= |a| + 2 {
        assert t == (a + ARGS_CLOSE) + b;
        OccursAtAppend(a + ARGS_CLOSE, b, ARGS_CLOSE, j);
      }
    }
  }

  /** A string splits around a last `") "` in one way only. */
  lemma CloseSplitUnique(a: string, b: string, c: string, d: string)
    requires a + ARGS_CLOSE + b == c + ARGS_CLOSE + d
    requires !Occurs(b, ARGS_CLOSE) && !Occurs(d, ARGS_CLOSE)
    ensures a == c && b == d
  {
    var t := a + ARGS_CLOSE + b;
    NoCloseAfter(a, b);
    NoCloseAfter(c, d);
    assert OccursAt(t, ARGS_CLOSE, |a|);
    assert OccursAt(t, ARGS_CLOSE, |c|);
    assert |a| == |c|;
    assert a == t[..|a|] == c;
    assert b == t[|a| + 2..] == d;
  }

  /** Every `" _Nonnull ("` starts with `" _"`, so none starts after the last `'_'` but one. */
  lemma NoNonnullAfter(ret: string, rest: string)
    requires '_' !in rest
    ensures forall i :: |ret| < i ==> !OccursAt(ret + " _" + rest, NONNULL_OPEN, i)
  {
    var s := ret + " _" + rest;
    forall i | |ret| < i ensures !OccursAt(s, NONNULL_OPEN, i) {
      if i + |NONNULL_OPEN| <= |s| {
        assert s[i + 1] == rest[i + 1 - |ret| - 2];
      }
    }
  }

  /** A split the greedy match produces is where the regex can match. */
  lemma SplitMatches(s: string, p: NonnullParts)
    requires s == p.ret + NONNULL_OPEN + p.args + ARGS_CLOSE + p.name
    ensures NonnullMatchesAt(s, |p.ret|)
    ensures s[|p.ret| + |NONNULL_OPEN|..] == p.args + ARGS_CLOSE + p.name
    ensures s[..|p.ret|] == p.ret
  {
    assert s[|p.ret| + |NONNULL_OPEN|..] == p.args + ARGS_CLOSE + p.name;
    assert OccursAt(p.args + ARGS_CLOSE + p.name, ARGS_CLOSE, |p.args|);
  }

  /**
   * The converse of the facts `NonnullSplit` states: a split of the name
   * around `" _Nonnull ("` and `") "`, with no `") "` in `name` and no match
   * starting after `ret`, is the match the regex finds.
   */
  lemma NonnullSplitOfGreedyParts(ret: string, args: string, name: string)
    requires !Occurs(name, ARGS_CLOSE)
    requires forall i :: |ret| < i ==> !NonnullMatchesAt(ret + NONNULL_OPEN + args + ARGS_CLOSE + name, i)
    ensures NonnullSplit(ret + NONNULL_OPEN + args + ARGS_CLOSE + name) == Some(NonnullParts(ret, args, name))
  {
    var p := NonnullParts(ret, args, name);
    var s := ret + NONNULL_OPEN + args + ARGS_CLOSE + name;
    SplitMatches(s, p);
    var q := NonnullSplit(s).value;
    SplitMatches(s, q);
    assert |q.ret| == |ret|;
    CloseSplitUnique(args, name, q.args, q.name);
  }

  /**
   * For `ret _Nonnull (args) name` with no `_` in `args` and `name` and no
   * `") "` in `name`, the match captures exactly those three parts.
   */
  lemma NonnullSplitOfParts(ret: string, args: string, name: string)
    requires '_' !in args && '_' !in name
    requires !Occurs(name, ARGS_CLOSE)
    ensures NonnullSplit(ret + NONNULL_OPEN + args + ARGS_CLOSE + name) == Some(NonnullParts(ret, args, name))
  {
    var s := ret + NONNULL_OPEN + args + ARGS_CLOSE + name;
    var rest := "Nonnull (" + args + ARGS_CLOSE + name;
    assert s == ret + " _" + rest;
    NoNonnullAfter(ret, rest);
    NonnullSplitOfGreedyParts(ret, args, name);
  }

  /**
   * The first `replace` of `sanitizeObjcSymbol`: the match `ret _Nonnull (args) name`
   * becomes `ret name(args)`; without a match the name is kept.
   */
  function RewriteNonnull(s: string): (r: string)
    ensures NonnullSplit(s).None? ==> r == s
    ensures NonnullSplit(s).Some? ==> |r| == |s| - 10
  {
    match NonnullSplit(s)
    case None => s
    case Some(p) => p.ret + " " + p.name + "(" + p.args + ")"
  }

  /** `ret _Nonnull (args) name`, matched greedily, is rewritten to `ret name(args)`. */
  lemma RewriteNonnullOfGreedyParts(ret: string, args: string, name: string)
    requires !Occurs(name, ARGS_CLOSE)
    requires forall i :: |ret| < i ==> !NonnullMatchesAt(ret + NONNULL_OPEN + args + ARGS_CLOSE + name, i)
    ensures RewriteNonnull(ret + NONNULL_OPEN + args + ARGS_CLOSE + name) == ret + " " + name + "(" + args + ")"
  {
    NonnullSplitOfGreedyParts(ret, args, name);
  }

  /** The second `replace`: one left-to-right pass deleting `" __strong"` and `" _Nonnull"`. */
  function StripQualifiers(s: string): (r: string)
    ensures |r| <= |s|
    ensures r == s || |r| <= |s| - 9
    ensures !Occurs(s, STRONG_QUALIFIER) && !Occurs(s, NONNULL_QUALIFIER) ==> r == s
    decreases |s|
  {
    if s == [] then []
    else if STRONG_QUALIFIER <= s || NONNULL_QUALIFIER <= s then
      assert STRONG_QUALIFIER <= s ==> OccursAt(s, STRONG_QUALIFIER, 0);
      assert NONNULL_QUALIFIER <= s ==> OccursAt(s, NONNULL_QUALIFIER, 0);
      StripQualifiers(s[9..])
    else
      var rest := StripQualifiers(s[1..]);
      assert !Occurs(s, STRONG_QUALIFIER) ==> !Occurs(s[1..], STRONG_QUALIFIER) by {
        if !Occurs(s, STRONG_QUALIFIER) { NoOccurrenceInSuffix(s, 1, STRONG_QUALIFIER); }
      }
      assert !Occurs(s, NONNULL_QUALIFIER) ==> !Occurs(s[1..], NONNULL_QUALIFIER) by {
        if !Occurs(s, NONNULL_QUALIFIER) { NoOccurrenceInSuffix(s, 1, NONNULL_QUALIFIER); }
      }
      assert s == [s[0]] + s[1..];
      [s[0]] + rest
  }

  /** A name that starts with neither qualifier keeps its first character. */
  lemma StripQualifiersKeepsFront(s: string)
    requires s != []
    requires !OccursAt(s, STRONG_QUALIFIER, 0) && !OccursAt(s, NONNULL_QUALIFIER, 0)
    ensures StripQualifiers(s) == [s[0]] + StripQualifiers(s[1..])
  {
    assert !(STRONG_QUALIFIER <= s) && !(NONNULL_QUALIFIER <= s);
  }

  /** A qualifier at the front is deleted. */
  lemma StripQualifiersAtFront(q: string, b: string)
    requires q == STRONG_QUALIFIER || q == NONNULL_QUALIFIER
    ensures StripQualifiers(q + b) == StripQualifiers(b)
  {
    var s := q + b;
    assert q <= s;
    assert s[9..] == b;
  }

  /** When no qualifier starts before index `n`, the pass keeps `s[..n]`. */
  lemma {:induction false} StripQualifiersKeepsPrefix(s: string, n: nat)
    requires n <= |s|
    requires forall k :: 0 <= k < n ==> !OccursAt(s, STRONG_QUALIFIER, k) && !OccursAt(s, NONNULL_QUALIFIER, k)
    ensures StripQualifiers(s) == s[..n] + StripQualifiers(s[n..])
    decreases n
  {
    if n == 0 {
      assert s[0..] == s;
    } else {
      StripQualifiersKeepsFront(s);
      forall k | 0 <= k < n - 1
        ensures !OccursAt(s[1..], STRONG_QUALIFIER, k) && !OccursAt(s[1..], NONNULL_QUALIFIER, k)
      {
        OccursAtSuffix(s, 1, STRONG_QUALIFIER, k);
        OccursAtSuffix(s, 1, NONNULL_QUALIFIER, k);
      }
      StripQualifiersKeepsPrefix(s[1..], n - 1);
      ConsPrefix(s, n, StripQualifiers(s), StripQualifiers(s[n..]));
    }
  }

  /** Sequence bookkeeping for a pass that keeps the first `n` characters of `s`. */
  lemma ConsPrefix(s: string, n: nat, x: string, y: string)
    requires 1 <= n <= |s|
    requires x == [s[0]] + (s[1..][..n - 1] + y)
    ensures s[1..][n - 1..] == s[n..]
    ensures x == s[..n] + y
  {
    assert s[..n] == [s[0]] + s[1..][..n - 1];
  }

  /**
   * The pass deletes the first qualifier, keeps everything before it and
   * goes on after it.
   */
  lemma StripQualifiersAtFirst(a: string, q: string, b: string)
    requires q == STRONG_QUALIFIER || q == NONNULL_QUALIFIER
    requires forall k :: 0 <= k < |a| ==>
               !OccursAt(a + q + b, STRONG_QUALIFIER, k) && !OccursAt(a + q + b, NONNULL_QUALIFIER, k)
    ensures StripQualifiers(a + q + b) == a + StripQualifiers(b)
  {
    var s := a + (q + b);
    assert s == a + q + b;
    assert s[..|a|] == a && s[|a|..] == q + b;
    StripQualifiersKeepsPrefix(s, |a|);
    StripQualifiersAtFront(q, b);
  }

  /** `sanitizeObjcSymbol`: the `_Nonnull` rewrite, then the qualifier deletion. */
  function SanitizeObjcSymbol(name: string): (r: string)
    ensures |r| <= |name|
    ensures NonnullSplit(name).Some? ==> |r| <= |name| - 10
    ensures (NonnullSplit(name).None? && !Occurs(name, STRONG_QUALIFIER) &&
             !Occurs(name, NONNULL_QUALIFIER)) ==> r == name
  {
    StripQualifiers(RewriteNonnull(name))
  }

  /**
   * A signature `ret _Nonnull (args) name`, matched greedily, is rearranged
   * into `ret name(args)`, keeping the space before `name`, and then loses its
   * qualifiers; when it holds none, `ret name(args)` is the result.
   */
  lemma SanitizeObjcSymbolOfSignature(ret: string, args: string, name: string)
    requires !Occurs(name, ARGS_CLOSE)
    requires forall i :: |ret| < i ==> !NonnullMatchesAt(ret + NONNULL_OPEN + args + ARGS_CLOSE + name, i)
    ensures SanitizeObjcSymbol(ret + NONNULL_OPEN + args + ARGS_CLOSE + name) ==
            StripQualifiers(ret + " " + name + "(" + args + ")")
    ensures var t := ret + " " + name + "(" + args + ")";
            !Occurs(t, STRONG_QUALIFIER) && !Occurs(t, NONNULL_QUALIFIER) ==>
              SanitizeObjcSymbol(ret + NONNULL_OPEN + args + ARGS_CLOSE + name) == t
  {
    RewriteNonnullOfGreedyParts(ret, args, name);
  }

  // ---------------------------------------------------------------------------
  // Stage 3: Objective-C keyword arguments

  /**
   * The stop condition of `removeObjcFunctionArguments`, stated without
   * `lastIndexOf`: the last colon, if there is one, is the second half of a
   * C++ scope operator `::`.
   */
  ghost predicate ArgumentFree(s: string)
  {
    forall k :: 0 <= k < |s| && s[k] == ':' && ':' !in s[k + 1..] ==> k > 0 && s[k - 1] == ':'
  }

  /** `isNamespaceColon`: out-of-range indices read as `undefined`, which is not `':'`. */
  function IsNamespaceColon(text: string, idx: int): (r: bool)
    ensures idx <= 0 || idx > |text| ==> !r
    ensures 0 <= idx < |text| && text[idx] == ':' ==> (r <==> OccursAt(text, "::", idx - 1))
  {
    idx > 0 && idx - 1 < |text| && text[idx - 1] == ':'
  }

  /** A colon with no colon after it is the one `lastIndexOf` finds. */
  lemma LastColonIsUnique(s: string, k: int)
    requires 0 <= k < |s| && s[k] == ':' && ':' !in s[k + 1..]
    ensures LastIndexOf(s, ':') == k
  {
    var c := LastIndexOf(s, ':');
  }

  /** `ArgumentFree` is exactly the source's stop condition. */
  lemma {:induction false} ArgumentFreeIsStopCondition(s: string)
    ensures ArgumentFree(s) <==>
            (LastIndexOf(s, ':') == -1 || IsNamespaceColon(s, LastIndexOf(s, ':')))
  {
    var c := LastIndexOf(s, ':');
    forall k | 0 <= k < |s| && s[k] == ':' && ':' !in s[k + 1..] ensures k == c {
      LastColonIsUnique(s, k);
    }
    if c >= 0 && !IsNamespaceColon(s, c) {
      assert !(c > 0 && s[c - 1] == ':');
    }
  }

  /** Every prefix that still ends past a keyword colon fails the stop condition. */
  lemma KeywordColonPrefixes(name: string, c: int)
    requires 0 <= c < |name| && name[c] == ':' && ':' !in name[c + 1..]
    requires !(c > 0 && name[c - 1] == ':')
    ensures forall k :: c < k <= |name| ==> !ArgumentFree(name[..k])
  {
    forall k | c < k <= |name| ensures !ArgumentFree(name[..k]) {
      var p := name[..k];
      assert p[c] == ':';
      assert p[c + 1..] == name[c + 1..][..k - c - 1];
      assert ':' !in p[c + 1..];
    }
  }

  /**
   * `removeObjcFunctionArguments`: cuts the name at its last colon until the
   * last colon (if any) belongs to a `::`. Each call is on a strictly shorter
   * name, which is what makes the recursion end.
   */
  function RemoveObjcFunctionArguments(name: string): (r: string)
    ensures r <= name && ArgumentFree(r)
    decreases |name|
  {
    var lastColon := LastIndexOf(name, ':');
    if lastColon == -1 || IsNamespaceColon(name, lastColon) then
      ArgumentFreeIsStopCondition(name);
      name
    else
      assert name[..lastColon] <= name;
      RemoveObjcFunctionArguments(name[..lastColon])
  }

  /** At a keyword colon, the last one and not part of `::`, the name is cut there and the stage goes on. */
  lemma RemoveObjcFunctionArgumentsCutsAt(name: string, c: int)
    requires 0 <= c < |name| && name[c] == ':' && ':' !in name[c + 1..]
    requires !(c > 0 && name[c - 1] == ':')
    ensures RemoveObjcFunctionArguments(name) == RemoveObjcFunctionArguments(name[..c])
  {
    LastColonIsUnique(name, c);
  }

  /** The result of `RemoveObjcFunctionArguments` is a prefix of the input that meets the stop condition. */
  lemma {:induction false} RemoveObjcFunctionArgumentsIsStablePrefix(name: string)
    ensures var r := RemoveObjcFunctionArguments(name);
            r <= name && ArgumentFree(r)
    decreases |name|
  {
    var lastColon := LastIndexOf(name, ':');
    if lastColon == -1 || IsNamespaceColon(name, lastColon) {
      ArgumentFreeIsStopCondition(name);
    } else {
      var shorter := name[..lastColon];
      RemoveObjcFunctionArgumentsIsStablePrefix(shorter);
      assert shorter <= name;
    }
  }

  /** No prefix of the input longer than the result of `RemoveObjcFunctionArguments` meets the stop condition. */
  lemma {:induction false} RemoveObjcFunctionArgumentsIsLongest(name: string)
    ensures var r := RemoveObjcFunctionArguments(name);
            forall k :: |r| < k <= |name| ==> !ArgumentFree(name[..k])
    decreases |name|
  {
    var lastColon := LastIndexOf(name, ':');
    if lastColon != -1 && !IsNamespaceColon(name, lastColon) {
      var shorter := name[..lastColon];
      KeywordColonPrefixes(name, lastColon);
      RemoveObjcFunctionArgumentsIsLongest(shorter);
      var r := RemoveObjcFunctionArguments(shorter);
      forall k | |r| < k <= lastColon ensures !ArgumentFree(name[..k]) {
        assert shorter[..k] == name[..k];
      }
    }
  }

  /**
   * The result of `RemoveObjcFunctionArguments` is the longest prefix of the
   * input that meets the stop condition: it is a prefix, it meets the
   * condition, and no longer prefix does.
   */
  lemma RemoveObjcFunctionArgumentsIsLongestStablePrefix(name: string)
    ensures var r := RemoveObjcFunctionArguments(name);
            r <= name && ArgumentFree(r) &&
            forall k :: |r| < k <= |name| ==> !ArgumentFree(name[..k])
  {
    RemoveObjcFunctionArgumentsIsStablePrefix(name);
    RemoveObjcFunctionArgumentsIsLongest(name);
  }

  /** A name is left unchanged exactly when it already meets the stop condition. */
  lemma {:induction false} RemoveObjcFunctionArgumentsFixedPoints(name: string)
    ensures RemoveObjcFunctionArguments(name) == name <==> ArgumentFree(name)
  {
    RemoveObjcFunctionArgumentsIsLongestStablePrefix(name);
    assert name[..|name|] == name;
  }

  /**
   * The two cases the source returns at once: no colon at all, or a last
   * colon preceded by another colon (so `A::B` is kept).
   */
  lemma RemoveObjcFunctionArgumentsKeepsScopedNames(name: string)
    requires ':' !in name || IsNamespaceColon(name, LastIndexOf(name, ':'))
    ensures RemoveObjcFunctionArguments(name) == name
  {
    ArgumentFreeIsStopCondition(name);
    RemoveObjcFunctionArgumentsFixedPoints(name);
  }

  lemma RemoveObjcFunctionArgumentsIdempotent(name: string)
    ensures RemoveObjcFunctionArguments(RemoveObjcFunctionArguments(name)) ==
            RemoveObjcFunctionArguments(name)
  {
    var r := RemoveObjcFunctionArguments(name);
    RemoveObjcFunctionArgumentsIsStablePrefix(name);
    RemoveObjcFunctionArgumentsFixedPoints(r);
  }

  // ---------------------------------------------------------------------------
  // Stage 4: anonymous namespaces

  /** `String.prototype.replace(/pat/g, rep)` for a literal pattern: left to right, non-overlapping. */
  function ReplaceAll(s: string, pat: string, rep: string): (r: string)
    requires pat != []
    ensures !Occurs(s, pat) ==> r == s
    decreases |s|
  {
    if s == [] then []
    else if pat <= s then
      assert OccursAt(s, pat, 0);
      rep + ReplaceAll(s[|pat|..], pat, rep)
    else
      assert !Occurs(s, pat) ==> !Occurs(s[1..], pat) by {
        if !Occurs(s, pat) { NoOccurrenceInSuffix(s, 1, pat); }
      }
      assert s == [s[0]] + s[1..];
      [s[0]] + ReplaceAll(s[1..], pat, rep)
  }

  /** A string that does not start with the pattern keeps its first character. */
  lemma ReplaceAllKeepsFront(s: string, pat: string, rep: string)
    requires s != [] && pat != [] && !OccursAt(s, pat, 0)
    ensures ReplaceAll(s, pat, rep) == [s[0]] + ReplaceAll(s[1..], pat, rep)
  {
    assert !(pat <= s);
  }

  /** When the pattern starts nowhere before index `n`, the replace keeps `s[..n]`. */
  lemma {:induction false} ReplaceAllKeepsPrefix(s: string, n: nat, pat: string, rep: string)
    requires n <= |s| && pat != []
    requires forall k :: 0 <= k < n ==> !OccursAt(s, pat, k)
    ensures ReplaceAll(s, pat, rep) == s[..n] + ReplaceAll(s[n..], pat, rep)
    decreases n
  {
    if n == 0 {
      assert s[0..] == s;
    } else {
      ReplaceAllKeepsFront(s, pat, rep);
      forall k | 0 <= k < n - 1 ensures !OccursAt(s[1..], pat, k) {
        OccursAtSuffix(s, 1, pat, k);
      }
      ReplaceAllKeepsPrefix(s[1..], n - 1, pat, rep);
      ConsPrefix(s, n, ReplaceAll(s, pat, rep), ReplaceAll(s[n..], pat, rep));
    }
  }

  /** The first occurrence becomes `rep`, everything before it is kept, and scanning resumes after it. */
  lemma ReplaceAllAtFirst(a: string, pat: string, b: string, rep: string)
    requires pat != []
    requires forall k :: 0 <= k < |a| ==> !OccursAt(a + pat + b, pat, k)
    ensures ReplaceAll(a + pat + b, pat, rep) == a + rep + ReplaceAll(b, pat, rep)
  {
    var s := a + (pat + b);
    assert s == a + pat + b;
    assert s[|a|..] == pat + b;
    ReplaceAllKeepsPrefix(s, |a|, pat, rep);
    assert s[..|a|] == a;
    var t := pat + b;
    assert pat <= t && t[|pat|..] == b;
  }

  /** A replacement holding a character `w` lacks, but not the last one of `w`, never starts `w`. */
  lemma ReplacementIsNoPrefix(w: string, rep: string, rest: string, foreign: char)
    requires w != [] && w[|w| - 1] !in rep
    requires foreign in rep && foreign !in w
    ensures !(w <= rep + rest)
  {
    if |w| <= |rep| {
      assert (rep + rest)[|w| - 1] == rep[|w| - 1];
    } else {
      var n :| 0 <= n < |rep| && rep[n] == foreign;
      assert (rep + rest)[n] == foreign;
    }
  }

  /**
   * If the output of `ReplaceAll` starts with `w`, so does its input, provided
   * the replacement cannot make up `w`: it holds a character `w` lacks, and
   * does not hold the last character of `w`.
   */
  lemma {:induction false} ReplaceAllPrefix(t: string, w: string, pat: string, rep: string, foreign: char)
    requires pat != [] && w != []
    requires w[|w| - 1] !in rep
    requires foreign in rep && foreign !in w
    ensures w <= ReplaceAll(t, pat, rep) ==> w <= t
    decreases |t|
  {
    if t == [] {
    } else if pat <= t {
      ReplacementIsNoPrefix(w, rep, ReplaceAll(t[|pat|..], pat, rep), foreign);
    } else {
      var rest := ReplaceAll(t[1..], pat, rep);
      if |w| > 1 {
        ReplaceAllPrefix(t[1..], w[1..], pat, rep, foreign);
        assert w <= [t[0]] + rest <==> w[0] == t[0] && w[1..] <= rest;
      }
      assert t == [t[0]] + t[1..];
    }
  }

  /** The step of `ReplaceAllAvoids` where the pattern matches at the front. */
  lemma ReplaceAllAvoidsAfterMatch(rep: string, rest: string, q: string)
    requires q != [] && q[0] !in rep
    requires !Occurs(rest, q)
    ensures !Occurs(rep + rest, q)
  {
    forall p ensures !OccursAt(rep + rest, q, p) {
      if 0 <= p < |rep| {
        assert (rep + rest)[p] == rep[p];
      } else if p >= |rep| {
        OccursAtAppend(rep, rest, q, p);
      }
    }
  }

  /** A string that does not start with `q`, and whose tail lacks `q`, lacks `q`. */
  lemma FrontNoOccurrence(c: char, rest: string, q: string)
    requires !Occurs(rest, q) && !(q <= [c] + rest)
    ensures !Occurs([c] + rest, q)
  {
    assert !OccursAt([c] + rest, q, 0);
    forall p | p >= 1 ensures !OccursAt([c] + rest, q, p) {
      OccursAtAppend([c], rest, q, p);
    }
  }

  /** `q` starts `[c] + x` exactly when it starts with `c` and its tail starts `x`. */
  lemma PrefixOfCons(c: char, x: string, q: string)
    requires q != []
    ensures q <= [c] + x <==> q[0] == c && q[1..] <= x
  {
    if q[0] == c && q[1..] <= x {
      assert q == [c] + q[1..];
      assert ([c] + x)[..|q|] == [c] + x[..|q| - 1];
    }
  }

  /** Keeping a first character that does not start `q` cannot make the output start with `q`. */
  lemma KeptFrontIsNoPrefix(s: string, pat: string, rep: string, q: string, foreign: char)
    requires s != [] && pat != [] && q != [] && !(q <= s)
    requires q[|q| - 1] !in rep
    requires foreign in rep && foreign !in q
    ensures !(q <= [s[0]] + ReplaceAll(s[1..], pat, rep))
  {
    var rest := ReplaceAll(s[1..], pat, rep);
    assert s == [s[0]] + s[1..];
    PrefixOfCons(s[0], rest, q);
    PrefixOfCons(s[0], s[1..], q);
    if |q| > 1 {
      ReplaceAllPrefix(s[1..], q[1..], pat, rep, foreign);
    }
  }

  /** The step of `ReplaceAllAvoids` where the first character is kept. */
  lemma ReplaceAllAvoidsAfterKeep(s: string, pat: string, rep: string, q: string, foreign: char)
    requires s != [] && pat != [] && q != [] && !(pat <= s) && !(q <= s)
    requires q[|q| - 1] !in rep
    requires foreign in rep && foreign !in q
    requires !Occurs(ReplaceAll(s[1..], pat, rep), q)
    ensures !Occurs(ReplaceAll(s, pat, rep), q)
  {
    var rest := ReplaceAll(s[1..], pat, rep);
    assert ReplaceAll(s, pat, rep) == [s[0]] + rest;
    KeptFrontIsNoPrefix(s, pat, rep, q, foreign);
    FrontNoOccurrence(s[0], rest, q);
  }

  /**
   * `ReplaceAll(s, pat, rep)` holds no occurrence of `q` when `q` is the
   * pattern itself or does not occur in `s`, provided the replacement cannot
   * help form `q`: neither the first nor the last character of `q` is in `rep`,
   * and `rep` holds a character `q` lacks.
   */
  lemma {:induction false} ReplaceAllAvoids(s: string, pat: string, rep: string, q: string, foreign: char)
    requires pat != [] && q != []
    requires q[0] !in rep && q[|q| - 1] !in rep
    requires foreign in rep && foreign !in q
    requires q == pat || !Occurs(s, q)
    ensures !Occurs(ReplaceAll(s, pat, rep), q)
    decreases |s|
  {
    if s == [] {
      assert forall p :: !OccursAt([], q, p);
    } else if pat <= s {
      if q != pat { NoOccurrenceInSuffix(s, |pat|, q); }
      ReplaceAllAvoids(s[|pat|..], pat, rep, q, foreign);
      ReplaceAllAvoidsAfterMatch(rep, ReplaceAll(s[|pat|..], pat, rep), q);
    } else {
      if q != pat {
        NoOccurrenceInSuffix(s, 1, q);
        assert !OccursAt(s, q, 0);
      }
      ReplaceAllAvoids(s[1..], pat, rep, q, foreign);
      ReplaceAllAvoidsAfterKeep(s, pat, rep, q, foreign);
    }
  }

  /** The replacement words hold neither parenthesis, and each holds a letter its marker lacks. */
  lemma ReplacementWords()
    ensures '(' !in "namespace" && ')' !in "namespace" && 'm' in "namespace" && 'm' !in ANON
    ensures '(' !in "anonymous_namespace" && ')' !in "anonymous_namespace"
    ensures '_' in "anonymous_namespace" && '_' !in ANON && '_' !in ANONYMOUS_NAMESPACE
  {
    assert "namespace"[2] == 'm';
    assert "anonymous_namespace"[9] == '_';
  }

  /**
   * `sanitizeAnonymousKeywords`: every `"(anon)"` becomes `"namespace"`, then
   * every `"(anonymous namespace)"` becomes `"anonymous_namespace"`; afterwards
   * neither parenthesised marker is left.
   */
  function SanitizeAnonymousKeywords(name: string): (r: string)
    ensures !Occurs(r, ANON) && !Occurs(r, ANONYMOUS_NAMESPACE)
    ensures !Occurs(name, ANON) && !Occurs(name, ANONYMOUS_NAMESPACE) ==> r == name
  {
    var once := ReplaceAll(name, ANON, "namespace");
    ReplacementWords();
    ReplaceAllAvoids(name, ANON, "namespace", ANON, 'm');
    ReplaceAllAvoids(once, ANONYMOUS_NAMESPACE, "anonymous_namespace", ANON, '_');
    ReplaceAllAvoids(once, ANONYMOUS_NAMESPACE, "anonymous_namespace", ANONYMOUS_NAMESPACE, '_');
    ReplaceAll(once, ANONYMOUS_NAMESPACE, "anonymous_namespace")
  }

  /** A leading `(anon)` becomes `namespace`; the rest, free of both markers, is kept. */
  lemma AnonPrefixRewritten(rest: string)
    requires !Occurs(rest, ANON) && !Occurs(rest, ANONYMOUS_NAMESPACE)
    ensures SanitizeAnonymousKeywords(ANON + rest) == "namespace" + rest
  {
    var s := ANON + rest;
    assert ANON <= s && s[|ANON|..] == rest;
    var once := ReplaceAll(s, ANON, "namespace");
    assert once == "namespace" + rest;
    ReplacementWords();
    ReplaceAllAvoidsAfterMatch("namespace", rest, ANONYMOUS_NAMESPACE);
  }

  /** The long marker opens with its only `(`, and its sixth character is not `)`. */
  lemma LongMarkerShape()
    ensures forall k :: 1 <= k < |ANONYMOUS_NAMESPACE| ==> ANONYMOUS_NAMESPACE[k] != '('
    ensures ANONYMOUS_NAMESPACE[5] == 'y'
  {
  }

  /** The short marker does not occur in the long one, nor across its end. */
  lemma ShortMarkerNotInLong(rest: string)
    requires !Occurs(rest, ANON)
    ensures !Occurs(ANONYMOUS_NAMESPACE + rest, ANON)
  {
    var s := ANONYMOUS_NAMESPACE + rest;
    LongMarkerShape();
    forall i ensures !OccursAt(s, ANON, i) {
      if i >= |ANONYMOUS_NAMESPACE| {
        OccursAtAppend(ANONYMOUS_NAMESPACE, rest, ANON, i);
      } else if 0 <= i && i + |ANON| <= |s| {
        var w := s[i..i + |ANON|];
        if i == 0 {
          assert w[5] == ANONYMOUS_NAMESPACE[5] != ANON[5];
        } else {
          assert w[0] == ANONYMOUS_NAMESPACE[i] != ANON[0];
        }
      }
    }
  }

  /** A leading `(anonymous namespace)` becomes `anonymous_namespace`; the rest, free of both markers, is kept. */
  lemma AnonymousNamespacePrefixRewritten(rest: string)
    requires !Occurs(rest, ANON) && !Occurs(rest, ANONYMOUS_NAMESPACE)
    ensures SanitizeAnonymousKeywords(ANONYMOUS_NAMESPACE + rest) == "anonymous_namespace" + rest
  {
    var s := ANONYMOUS_NAMESPACE + rest;
    ShortMarkerNotInLong(rest);
    assert ReplaceAll(s, ANON, "namespace") == s;
    assert ANONYMOUS_NAMESPACE <= s && s[|ANONYMOUS_NAMESPACE|..] == rest;
  }

  // ---------------------------------------------------------------------------
  // The pipeline

  /** The stage functions `sanitizeSymbol` loops over, in the order of the source's array. */
  const STAGES: seq<string -> string> :=
    [SanitizeOperator, SanitizeObjcSymbol, RemoveObjcFunctionArguments, SanitizeAnonymousKeywords]

  /** The stages composed as an expression: each output feeds the next stage. */
  function Sanitized(name: string): (r: string)
  {
    SanitizeAnonymousKeywords(RemoveObjcFunctionArguments(SanitizeObjcSymbol(SanitizeOperator(name))))
  }

  /**
   * `sanitizeSymbol`: `null` gives the empty string; any other name is run
   * through the four stages by a loop that reassigns the working name.
   */
  method SanitizeSymbol(input: Option<string>) returns (name: string)
    ensures input.None? ==> name == ""
    ensures input.Some? ==> name == Sanitized(input.value)
    ensures !Occurs(name, ANON) && !Occurs(name, ANONYMOUS_NAMESPACE)
  {
    if input.None? {
      name := "";
      assert !OccursAt(name, ANON, 0) && !OccursAt(name, ANONYMOUS_NAMESPACE, 0);
      return;
    }
    name := input.value;
    ghost var n := input.value;
    for i := 0 to |STAGES|
      invariant i == 0 ==> name == n
      invariant i == 1 ==> name == SanitizeOperator(n)
      invariant i == 2 ==> name == SanitizeObjcSymbol(SanitizeOperator(n))
      invariant i == 3 ==> name == RemoveObjcFunctionArguments(SanitizeObjcSymbol(SanitizeOperator(n)))
      invariant i == 4 ==> name == Sanitized(n)
    {
      name := STAGES[i](name);
    }
  }
}
