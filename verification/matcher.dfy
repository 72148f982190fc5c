/** The token matcher of `recognize_command` (main.cpp:100-124), over the
    sorted command list.

    The specification `Recognize` says, token by token, which registered
    commands agree with the tokens consumed so far (`Candidates`): no match
    when none agree, the command itself as soon as exactly one agrees (even if
    tokens remain: the early return at main.cpp:118-120), and no match when the
    tokens run out while two or more agree.

    The source indexes `get_text()[token_num]` without a bounds check
    (main.cpp:109, 114). The model reads a command that has no token at that
    position as sorting before every token, which is consistent with the
    lexicographic order `sort_` uses (a proper prefix sorts first), so no
    precondition on the registry is needed. */
module Matcher {
  import opened Common
  import opened LexOrder
  import opened Commands
  import opened Sorting

  /** `c` agrees with every consumed token. */
  predicate Matches(c: Command, consumed: seq<string>)
  {
    IsPrefixOf(consumed, c.text)
  }

  /** The registered commands that agree with the consumed tokens, in order. */
  function Candidates(cmds: seq<Command>, consumed: seq<string>): seq<Command>
  {
    if |cmds| == 0 then []
    else (if Matches(cmds[0], consumed) then [cmds[0]] else []) + Candidates(cmds[1..], consumed)
  }

  /** What the matcher answers once `k` tokens have been consumed without
      deciding. */
  function RecognizeFrom(cmds: seq<Command>, args: seq<string>, k: nat): Option<Command>
    requires k <= |args|
    decreases |args| - k
  {
    if k == |args| then None
    else
      var cs := Candidates(cmds, args[..k + 1]);
      if |cs| == 0 then None
      else if |cs| == 1 then Some(cs[0])
      else RecognizeFrom(cmds, args, k + 1)
  }

  /** The command `recognize_command` selects for the positional tokens
      `args` (that is, `argv[1..argc]`), or None for `nullptr`. */
  function Recognize(cmds: seq<Command>, args: seq<string>): Option<Command>
  {
    RecognizeFrom(cmds, args, 0)
  }

  // ---------------------------------------------------------------------------
  // Candidates

  /** How often a command occurs among the candidates: as often as it is
      registered if it agrees with the consumed tokens, never otherwise. */
  lemma {:induction false} CandidatesCount(cmds: seq<Command>, consumed: seq<string>, x: Command)
    ensures multiset(Candidates(cmds, consumed))[x]
            == if Matches(x, consumed) then multiset(cmds)[x] else 0
  {
    if |cmds| > 0 {
      CandidatesCount(cmds[1..], consumed, x);
      assert cmds == [cmds[0]] + cmds[1..];
    }
  }

  /** Candidates depend only on which commands are registered, not on their order. */
  lemma CandidatesPermutation(a: seq<Command>, b: seq<Command>, consumed: seq<string>)
    requires multiset(a) == multiset(b)
    ensures multiset(Candidates(a, consumed)) == multiset(Candidates(b, consumed))
  {
    forall x ensures multiset(Candidates(a, consumed))[x] == multiset(Candidates(b, consumed))[x] {
      CandidatesCount(a, consumed, x);
      CandidatesCount(b, consumed, x);
    }
  }

  /** When the commands that agree are exactly those at positions
      `[lo, hi)`, the candidates are that slice. */
  lemma {:induction false} CandidatesSlice(cmds: seq<Command>, consumed: seq<string>, lo: nat, hi: nat)
    requires lo <= hi <= |cmds|
    requires forall j :: 0 <= j < |cmds| ==> (Matches(cmds[j], consumed) <==> lo <= j < hi)
    ensures Candidates(cmds, consumed) == cmds[lo..hi]
  {
    if |cmds| > 0 {
      var lo', hi' := if lo == 0 then 0 else lo - 1, if hi == 0 then 0 else hi - 1;
      forall j | 0 <= j < |cmds[1..]|
        ensures Matches(cmds[1..][j], consumed) <==> lo' <= j < hi'
      {
        assert cmds[1..][j] == cmds[j + 1];
      }
      CandidatesSlice(cmds[1..], consumed, lo', hi');
      if lo == 0 && hi > 0 {
        assert cmds[lo..hi] == [cmds[0]] + cmds[1..][lo'..hi'];
      } else {
        assert cmds[lo..hi] == cmds[1..][lo'..hi'];
      }
    }
  }

  /** Consuming one more token only removes candidates: the active range
      of the source only shrinks. */
  lemma {:induction false} CandidatesNarrow(cmds: seq<Command>, args: seq<string>, k: nat)
    requires k < |args|
    ensures multiset(Candidates(cmds, args[..k + 1])) <= multiset(Candidates(cmds, args[..k]))
  {
    forall x ensures multiset(Candidates(cmds, args[..k + 1]))[x] <= multiset(Candidates(cmds, args[..k]))[x] {
      CandidatesCount(cmds, args[..k + 1], x);
      CandidatesCount(cmds, args[..k], x);
      if Matches(x, args[..k + 1]) {
        assert x.text[..k] == x.text[..k + 1][..k];
      }
    }
  }

  /** The unique candidate is a registered command, agrees with the consumed
      tokens, is registered once, and no other registered command agrees. */
  lemma SingleCandidate(cmds: seq<Command>, consumed: seq<string>, c: Command)
    requires Candidates(cmds, consumed) == [c]
    ensures c in cmds && Matches(c, consumed) && multiset(cmds)[c] == 1
    ensures forall j :: 0 <= j < |cmds| && Matches(cmds[j], consumed) ==> cmds[j] == c
  {
    CandidatesCount(cmds, consumed, c);
    forall j | 0 <= j < |cmds| && Matches(cmds[j], consumed) ensures cmds[j] == c {
      CandidatesCount(cmds, consumed, cmds[j]);
    }
  }

  // ---------------------------------------------------------------------------
  // What Recognize answers

  /** No positional tokens (`argc == 1`): no command. */
  lemma RecognizeNoTokens(cmds: seq<Command>)
    ensures Recognize(cmds, []) == None
  {
  }

  /** A non-null answer is the one registered command that agrees with the
      first `k` tokens, where `k` is the first point at which fewer than two
      commands agree. */
  lemma RecognizeSound(cmds: seq<Command>, args: seq<string>) returns (k: nat)
    requires Recognize(cmds, args).Some?
    ensures 1 <= k <= |args|
    ensures Candidates(cmds, args[..k]) == [Recognize(cmds, args).value]
    ensures forall k' :: 1 <= k' < k ==> |Candidates(cmds, args[..k'])| >= 2
  {
    k := RecognizeFromSound(cmds, args, 0);
  }

  lemma {:induction false} RecognizeFromSound(cmds: seq<Command>, args: seq<string>, i: nat) returns (k: nat)
    requires i <= |args| && RecognizeFrom(cmds, args, i).Some?
    ensures i + 1 <= k <= |args|
    ensures Candidates(cmds, args[..k]) == [RecognizeFrom(cmds, args, i).value]
    ensures forall k' :: i + 1 <= k' < k ==> |Candidates(cmds, args[..k'])| >= 2
    decreases |args| - i
  {
    var cs := Candidates(cmds, args[..i + 1]);
    if |cs| == 1 {
      k := i + 1;
      assert cs == [cs[0]];
    } else {
      k := RecognizeFromSound(cmds, args, i + 1);
    }
  }

  /** Conversely: if the first `k` at which fewer than two commands agree has
      one candidate, that is the answer; if it has none, there is no match. */
  lemma {:induction false} RecognizeAt(cmds: seq<Command>, args: seq<string>, k: nat)
    requires 1 <= k <= |args|
    requires forall k' :: 1 <= k' < k ==> |Candidates(cmds, args[..k'])| >= 2
    ensures |Candidates(cmds, args[..k])| == 0 ==> Recognize(cmds, args) == None
    ensures |Candidates(cmds, args[..k])| == 1 ==> Recognize(cmds, args) == Some(Candidates(cmds, args[..k])[0])
  {
    RecognizeFromAt(cmds, args, 0, k);
  }

  lemma {:induction false} RecognizeFromAt(cmds: seq<Command>, args: seq<string>, i: nat, k: nat)
    requires i < k <= |args|
    requires forall k' :: i + 1 <= k' < k ==> |Candidates(cmds, args[..k'])| >= 2
    ensures |Candidates(cmds, args[..k])| <= 1 ==> RecognizeFrom(cmds, args, i) == RecognizeFrom(cmds, args, k - 1)
    decreases k - i
  {
    if i + 1 < k {
      RecognizeFromAt(cmds, args, i + 1, k);
    }
  }

  /** Tokens exhausted while two or more commands still agree: no match. */
  lemma RecognizeIncomplete(cmds: seq<Command>, args: seq<string>)
    requires forall k :: 1 <= k <= |args| ==> |Candidates(cmds, args[..k])| >= 2
    ensures Recognize(cmds, args) == None
  {
    RecognizeFromIncomplete(cmds, args, 0);
  }

  lemma {:induction false} RecognizeFromIncomplete(cmds: seq<Command>, args: seq<string>, i: nat)
    requires i <= |args|
    requires forall k :: i + 1 <= k <= |args| ==> |Candidates(cmds, args[..k])| >= 2
    ensures RecognizeFrom(cmds, args, i) == None
    decreases |args| - i
  {
    if i < |args| {
      RecognizeFromIncomplete(cmds, args, i + 1);
    }
  }

  /** Registration order does not leak: any permutation of the registry
      recognizes the same command. */
  lemma RecognizeOrderIndependent(a: seq<Command>, b: seq<Command>, args: seq<string>)
    requires multiset(a) == multiset(b)
    ensures Recognize(a, args) == Recognize(b, args)
  {
    RecognizeFromOrderIndependent(a, b, args, 0);
  }

  lemma {:induction false} RecognizeFromOrderIndependent(a: seq<Command>, b: seq<Command>, args: seq<string>, i: nat)
    requires multiset(a) == multiset(b) && i <= |args|
    ensures RecognizeFrom(a, args, i) == RecognizeFrom(b, args, i)
    decreases |args| - i
  {
    if i < |args| {
      CandidatesSameShape(a, b, args[..i + 1]);
      RecognizeFromOrderIndependent(a, b, args, i + 1);
    }
  }

  /** A sequence with the multiset of one element is that element alone. */
  lemma SingletonSeq(s: seq<Command>, x: Command)
    requires multiset(s) == multiset{x}
    ensures s == [x]
  {

  }

  /** Permuted registries have as many candidates, and the same one when
      there is exactly one. */
  lemma CandidatesSameShape(a: seq<Command>, b: seq<Command>, consumed: seq<string>)
    requires multiset(a) == multiset(b)
    ensures |Candidates(a, consumed)| == |Candidates(b, consumed)|
    ensures |Candidates(a, consumed)| == 1 ==> Candidates(a, consumed) == Candidates(b, consumed)
  {
    var ca, cb := Candidates(a, consumed), Candidates(b, consumed);
    CandidatesPermutation(a, b, consumed);
    assert |ca| == |multiset(ca)| == |multiset(cb)| == |cb|;
    if |ca| == 1 {
      assert ca == [ca[0]];
      SingletonSeq(cb, ca[0]);
    }
  }

  /** No registered text is a prefix of another registered text (nor equal
      to it). */
  predicate PrefixFree(cmds: seq<Command>)
  {
    forall i, j :: 0 <= i < |cmds| && 0 <= j < |cmds| && i != j ==> !IsPrefixOf(cmds[i].text, cmds[j].text)
  }

  /** In a prefix-free registry, a command's own tokens select it, whatever
      positional tokens follow them. */
  lemma OwnTextRecognized(cmds: seq<Command>, i: nat, rest: seq<string>)
    requires PrefixFree(cmds) && i < |cmds| && |cmds[i].text| > 0
    ensures Recognize(cmds, cmds[i].text + rest) == Some(cmds[i])
  {
    OwnTextFrom(cmds, i, rest, 0);
  }

  lemma {:induction false} OwnTextFrom(cmds: seq<Command>, i: nat, rest: seq<string>, k: nat)
    requires PrefixFree(cmds) && i < |cmds| && k < |cmds[i].text|
    ensures RecognizeFrom(cmds, cmds[i].text + rest, k) == Some(cmds[i])
    decreases |cmds[i].text| - k
  {
    var c, args := cmds[i], cmds[i].text + rest;
    var consumed := args[..k + 1];
    assert consumed == c.text[..k + 1];
    var cs := Candidates(cmds, consumed);
    CandidatesCount(cmds, consumed, c);
    assert c in multiset(cs);
    if k + 1 == |c.text| {
      forall j | 0 <= j < |cmds| ensures Matches(cmds[j], consumed) <==> i <= j < i + 1 {
        assert consumed == c.text;
      }
      CandidatesSlice(cmds, consumed, i, i + 1);
    } else if |cs| != 1 {
      OwnTextFrom(cmds, i, rest, k + 1);
    }
  }

  // ---------------------------------------------------------------------------
  // The binary searches

  /** The comparator given to `std::lower_bound` (main.cpp:108-110): the
      command's token at position `p` sorts before `key`. */
  predicate TokenBefore(c: Command, p: nat, key: string)
  {
    |c.text| <= p || StrLess(c.text[p], key)
  }

  /** The comparator given to `std::upper_bound` (main.cpp:113-115): `key`
      sorts before the command's token at position `p`. */
  predicate TokenAfter(c: Command, p: nat, key: string)
  {
    |c.text| > p && StrLess(key, c.text[p])
  }

  /** Of two texts in order that share their first `p` tokens, the first one's
      token at `p` is not after the second one's. */
  lemma KeysInOrder(a: seq<string>, b: seq<string>, p: nat, key: string)
    requires p <= |a| && p <= |b| && a[..p] == b[..p]
    requires !TextLess(b, a)
    ensures (|b| <= p || StrLess(b[p], key)) ==> (|a| <= p || StrLess(a[p], key))
    ensures (|a| > p && StrLess(key, a[p])) ==> (|b| > p && StrLess(key, b[p]))
  {
    LexLessDropPrefix(b, a, p, StrLess);
    assert StrictTotalOrder(CharLess);
    if |a| > p && |b| > p {
      assert b[p..][0] == b[p] && a[p..][0] == a[p];
      if a[p] != b[p] {
        LexTotal(a[p], b[p], CharLess);
        if StrLess(b[p], key) {
          LexTransitive(a[p], b[p], key, CharLess);
        }
        if StrLess(key, a[p]) {
          LexTransitive(key, a[p], b[p], CharLess);
        }
      }
    }
  }

  /** A sorted range whose commands agree with the consumed tokens is
      partitioned for both comparators, as `std::lower_bound` and
      `std::upper_bound` require. */
  lemma SortedRangePartitioned(cmds: seq<Command>, lo: nat, hi: nat, consumed: seq<string>, key: string)
    requires SortedByText(cmds) && lo <= hi <= |cmds|
    requires forall j :: lo <= j < hi ==> Matches(cmds[j], consumed)
    ensures var p := |consumed|;
      forall i, j :: lo <= i < j < hi && TokenBefore(cmds[j], p, key) ==> TokenBefore(cmds[i], p, key)
    ensures var p := |consumed|;
      forall i, j :: lo <= i < j < hi && TokenAfter(cmds[i], p, key) ==> TokenAfter(cmds[j], p, key)
  {
    var p := |consumed|;
    forall i, j | lo <= i < j < hi
      ensures TokenBefore(cmds[j], p, key) ==> TokenBefore(cmds[i], p, key)
      ensures TokenAfter(cmds[i], p, key) ==> TokenAfter(cmds[j], p, key)
    {
      KeysInOrder(cmds[i].text, cmds[j].text, p, key);
    }
  }

  /** `std::lower_bound` over `cmds[lo..hi]`: the first position whose
      command's token is not before `key`. */
  method LowerBound(cmds: seq<Command>, lo: nat, hi: nat, p: nat, key: string) returns (m: nat)
    requires lo <= hi <= |cmds|
    requires forall i, j :: lo <= i < j < hi && TokenBefore(cmds[j], p, key) ==> TokenBefore(cmds[i], p, key)
    ensures lo <= m <= hi
    ensures forall j :: lo <= j < m ==> TokenBefore(cmds[j], p, key)
    ensures forall j :: m <= j < hi ==> !TokenBefore(cmds[j], p, key)
  {
    var a, b := lo, hi;
    while a < b
      invariant lo <= a <= b <= hi
      invariant forall j :: lo <= j < a ==> TokenBefore(cmds[j], p, key)
      invariant forall j :: b <= j < hi ==> !TokenBefore(cmds[j], p, key)
    {
      var mid := a + (b - a) / 2;
      if TokenBefore(cmds[mid], p, key) {
        a := mid + 1;
      } else {
        b := mid;
      }
    }
    m := a;
  }

  /** `std::upper_bound` over `cmds[lo..hi]`: the first position whose
      command's token is after `key`. */
  method UpperBound(cmds: seq<Command>, lo: nat, hi: nat, p: nat, key: string) returns (m: nat)
    requires lo <= hi <= |cmds|
    requires forall i, j :: lo <= i < j < hi && TokenAfter(cmds[i], p, key) ==> TokenAfter(cmds[j], p, key)
    ensures lo <= m <= hi
    ensures forall j :: lo <= j < m ==> !TokenAfter(cmds[j], p, key)
    ensures forall j :: m <= j < hi ==> TokenAfter(cmds[j], p, key)
  {
    var a, b := lo, hi;
    while a < b
      invariant lo <= a <= b <= hi
      invariant forall j :: lo <= j < a ==> !TokenAfter(cmds[j], p, key)
      invariant forall j :: b <= j < hi ==> TokenAfter(cmds[j], p, key)
    {
      var mid := a + (b - a) / 2;
      if TokenAfter(cmds[mid], p, key) {
        b := mid;
      } else {
        a := mid + 1;
      }
    }
    m := a;
  }

  /** After the two searches, the commands agreeing with one more token are
      exactly those between the two bounds. */
  lemma NarrowStep(cmds: seq<Command>, args: seq<string>, t: nat, lo: nat, hi: nat, first: nat, last: nat)
    requires t < |args| && lo <= first <= last <= hi <= |cmds|
    requires forall j :: 0 <= j < |cmds| ==> (Matches(cmds[j], args[..t]) <==> lo <= j < hi)
    requires forall j :: lo <= j < first ==> TokenBefore(cmds[j], t, args[t])
    requires forall j :: first <= j < last ==> !TokenBefore(cmds[j], t, args[t]) && !TokenAfter(cmds[j], t, args[t])
    requires forall j :: last <= j < hi ==> TokenAfter(cmds[j], t, args[t])
    ensures forall j :: 0 <= j < |cmds| ==> (Matches(cmds[j], args[..t + 1]) <==> first <= j < last)
  {
    assert StrictTotalOrder(CharLess);
    forall j | 0 <= j < |cmds|
      ensures Matches(cmds[j], args[..t + 1]) <==> first <= j < last
    {
      var text := cmds[j].text;
      assert args[..t + 1] == args[..t] + [args[t]];
      if |text| > t {
        assert text[..t + 1] == text[..t] + [text[t]];
        LexIrreflexive(args[t], CharLess);
        if text[t] != args[t] {
          LexTotal(text[t], args[t], CharLess);
        }
      }
    }
  }

  /** The loop of `recognize_command` (main.cpp:103-123) over a sorted
      registry: `[lo, hi)` is the range `[it_begin, it_end)`. */
  method FindCommand(cmds: seq<Command>, args: seq<string>) returns (r: Option<Command>)
    requires SortedByText(cmds)
    ensures r == Recognize(cmds, args)
  {
    var tokenNum := 0;
    var lo, hi := 0, |cmds|;
    while tokenNum < |args|
      invariant tokenNum <= |args| && lo <= hi <= |cmds|
      invariant forall j :: 0 <= j < |cmds| ==> (Matches(cmds[j], args[..tokenNum]) <==> lo <= j < hi)
      invariant RecognizeFrom(cmds, args, tokenNum) == Recognize(cmds, args)
    {
      var key := args[tokenNum];
      SortedRangePartitioned(cmds, lo, hi, args[..tokenNum], key);
      var first := LowerBound(cmds, lo, hi, tokenNum, key);
      if first == hi {
        NarrowStep(cmds, args, tokenNum, lo, hi, hi, hi);
        CandidatesSlice(cmds, args[..tokenNum + 1], hi, hi);
        return None;
      }
      var last := UpperBound(cmds, first, hi, tokenNum, key);
      NarrowStep(cmds, args, tokenNum, lo, hi, first, last);
      CandidatesSlice(cmds, args[..tokenNum + 1], first, last);
      if first == last {
        return None;
      }
      if last - first == 1 {
        return Some(cmds[first]);
      }
      lo, hi := first, last;
      tokenNum := tokenNum + 1;
    }
    r := None;
  }
}
