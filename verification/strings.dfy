/** The three string helpers of main.cpp: `merge_strings` (join with single
    spaces), `split` (whitespace tokeniser over an `std::istringstream`) and
    `start_with` (prefix test on NUL-terminated C strings). Each is a loop in
    the source and a method here, proved against a specification function. */
module Strings {
  import opened Common

  /** The characters `isspace` accepts in the "C" locale, which is what
      `operator>>` on a default `std::istringstream` skips. */
  predicate IsSpace(c: char)
  {
    c == ' ' || c == '\t' || c == '\n' || c == '\U{B}' || c == '\U{C}' || c == '\r'
  }

  /** A token as `split` can produce it: non-empty, no whitespace inside. */
  predicate IsWord(w: string)
  {
    |w| > 0 && forall k :: 0 <= k < |w| ==> !IsSpace(w[k])
  }

  /** Length of the run of non-space characters at the start of `s`. */
  function WordLen(s: string): (n: nat)
    ensures n <= |s|
    ensures forall k :: 0 <= k < n ==> !IsSpace(s[k])
    ensures n < |s| ==> IsSpace(s[n])
  {
    if |s| == 0 || IsSpace(s[0]) then 0 else 1 + WordLen(s[1..])
  }

  /** The words `while (s_stream >> tmp)` extracts from `s`, in order. */
  function Tokens(s: string): seq<string>
    decreases |s|
  {
    if |s| == 0 then []
    else if IsSpace(s[0]) then Tokens(s[1..])
    else var n := WordLen(s); [s[..n]] + Tokens(s[n..])
  }

  /** Every extracted token is a word. */
  lemma {:induction false} TokensAreWords(s: string)
    ensures forall i :: 0 <= i < |Tokens(s)| ==> IsWord(Tokens(s)[i])
    decreases |s|
  {
    if |s| > 0 {
      if IsSpace(s[0]) {
        TokensAreWords(s[1..]);
      } else {
        TokensAreWords(s[WordLen(s)..]);
      }
    }
  }

  /** Splitting yields nothing exactly when the text is all whitespace. */
  lemma {:induction false} TokensEmptyIff(s: string)
    ensures Tokens(s) == [] <==> forall k :: 0 <= k < |s| ==> IsSpace(s[k])
    decreases |s|
  {
    if |s| > 0 && IsSpace(s[0]) {
      TokensEmptyIff(s[1..]);
      assert forall k :: 1 <= k < |s| ==> s[k] == s[1..][k - 1];
    }
  }

  /** A word followed by the end of the text or by whitespace is extracted whole. */
  lemma TokensOfWordThen(w: string, rest: string)
    requires IsWord(w)
    requires |rest| == 0 || IsSpace(rest[0])
    ensures Tokens(w + rest) == [w] + Tokens(rest)
  {
    var s := w + rest;
    assert forall k :: 0 <= k < |w| ==> s[k] == w[k];
    assert |rest| > 0 ==> s[|w|] == rest[0];
    var n := WordLen(s);
    assert n == |w|;
    assert s[..n] == w && s[n..] == rest;
  }

  /** `merge_strings`: the tokens joined with one space between neighbours. */
  function Joined(v: seq<string>): string
    requires |v| > 0
  {
    if |v| == 1 then v[0] else v[0] + " " + Joined(v[1..])
  }

  /** Splitting undoes joining: the round trip the registry relies on when it
      splits a command text and later prints its merged name. */
  lemma {:induction false} SplitJoined(v: seq<string>)
    requires |v| > 0
    requires forall i :: 0 <= i < |v| ==> IsWord(v[i])
    ensures Tokens(Joined(v)) == v
  {
    if |v| == 1 {
      TokensOfWordThen(v[0], "");
      assert v[0] + "" == v[0];
    } else {
      var tail := Joined(v[1..]);
      assert v[0] + " " + tail == v[0] + (" " + tail);
      TokensOfWordThen(v[0], " " + tail);
      assert (" " + tail)[1..] == tail;
      SplitJoined(v[1..]);
      assert v == [v[0]] + v[1..];
    }
  }

  /** Every token appears in the joined text in order, separated by spaces:
      the joined length is the sum of the token lengths plus one per gap. */
  lemma {:induction false} JoinedLength(v: seq<string>)
    requires |v| > 0
    ensures |Joined(v)| == TotalLength(v) + |v| - 1
  {
    if |v| > 1 {
      JoinedLength(v[1..]);
    }
  }

  function TotalLength(v: seq<string>): nat
  {
    if |v| == 0 then 0 else |v[0]| + TotalLength(v[1..])
  }

  /** Joining from position `i` on emits `v[i]` and a blank, then the rest. */
  lemma JoinedFrom(v: seq<string>, i: nat)
    requires i < |v| - 1
    ensures Joined(v[i..]) == v[i] + " " + Joined(v[i + 1..])
  {

  }

  /** `merge_strings` (main.cpp:15-21). The source indexes up to
      `v.size() - 1` and reads `v.back()`, so it needs a non-empty vector. */
  method MergeStrings(v: seq<string>) returns (ans: string)
    requires |v| > 0
    ensures ans == Joined(v)
  {
    ans := "";
    var i := 0;
    while i < |v| - 1
      invariant 0 <= i <= |v| - 1
      invariant ans + Joined(v[i..]) == Joined(v)
    {
      JoinedFrom(v, i);
      ans := ans + v[i] + " ";
      i := i + 1;
    }
    ans := ans + v[|v| - 1];
  }

  /** A leading blank contributes no token. */
  lemma TokensSkipSpace(s: string, i: nat)
    requires i < |s| && IsSpace(s[i])
    ensures Tokens(s[i..]) == Tokens(s[i + 1..])
  {

  }

  /** A maximal run of non-blanks at `start` is the next token. */
  lemma TokensWordAt(s: string, start: nat, end: nat)
    requires start < end <= |s|
    requires forall k :: start <= k < end ==> !IsSpace(s[k])
    requires end == |s| || IsSpace(s[end])
    ensures Tokens(s[start..]) == [s[start..end]] + Tokens(s[end..])
  {
    TokensOfWordThen(s[start..end], s[end..]);
    assert s[start..end] + s[end..] == s[start..];
  }

  /** `split` (main.cpp:61-70): each round of the outer loop is one
      `s_stream >> tmp`, which skips whitespace, fails at the end of the text,
      and otherwise reads characters up to the next whitespace. */
  method Split(s: string) returns (ans: seq<string>)
    ensures ans == Tokens(s)
  {
    ans := [];
    var i := 0;
    while true
      invariant 0 <= i <= |s|
      invariant ans + Tokens(s[i..]) == Tokens(s)
      decreases |s| - i
    {
      while i < |s| && IsSpace(s[i])
        invariant 0 <= i <= |s|
        invariant ans + Tokens(s[i..]) == Tokens(s)
      {
        TokensSkipSpace(s, i);
        i := i + 1;
      }
      if i == |s| {
        break;
      }
      var start := i;
      while i < |s| && !IsSpace(s[i])
        invariant start <= i <= |s|
        invariant forall k :: start <= k < i ==> !IsSpace(s[k])
      {
        i := i + 1;
      }
      TokensWordAt(s, start, i);
      ans := ans + [s[start..i]];
    }
    assert s[i..] == [];
  }

  /** Length of the C string stored in `s`: the index of its first NUL. */
  function CLen(s: seq<char>): (n: nat)
    requires '\0' in s
    ensures n < |s| && s[n] == '\0'
    ensures forall k :: 0 <= k < n ==> s[k] != '\0'
  {
    if s[0] == '\0' then 0 else 1 + CLen(s[1..])
  }

  /** The characters of the C string stored in `s`, terminator excluded. */
  function CStr(s: seq<char>): string
    requires '\0' in s
  {
    s[..CLen(s)]
  }

  /** `start_with` (main.cpp:72-80): both pointers advance together while the
      characters agree and the prefix has not ended. The invariant
      `i <= CLen(...)` for both strings is the claim that no character past
      either terminator is read. */
  method StartWith(str: seq<char>, pref: seq<char>) returns (r: bool)
    requires '\0' in str && '\0' in pref
    ensures r <==> IsPrefixOf(CStr(pref), CStr(str))
  {
    var i := 0;
    while str[i] == pref[i] && pref[i] != '\0'
      invariant i <= CLen(str) && i <= CLen(pref)
      invariant str[..i] == pref[..i]
      decreases CLen(pref) - i
    {
      i := i + 1;
    }
    r := pref[i] == '\0';
    if !r {
      if CLen(pref) <= CLen(str) {
        assert CStr(str)[i] == str[i] && CStr(pref)[i] == pref[i];
      }
    }
  }
}
