/** The order `sort_` establishes (main.cpp:154-162): commands ordered by
    `get_text()` under `std::vector<std::string>::operator<`. The source calls
    `std::sort`, whose algorithm is library code; the model sorts by insertion
    and proves what `std::sort` promises: the result is ordered and is a
    permutation of the input. */
module Sorting {
  import opened LexOrder
  import opened Commands

  /** No command comes after one whose text sorts strictly before its own. */
  predicate SortedByText(s: seq<Command>)
  {
    forall i, j :: 0 <= i < j < |s| ==> !TextLess(s[j].text, s[i].text)
  }

  /** `c` placed before the first element whose text is not smaller. */
  function Insert(c: Command, s: seq<Command>): (r: seq<Command>)
    ensures multiset(r) == multiset(s) + multiset{c}
  {
    if |s| == 0 then [c]
    else
      assert s == [s[0]] + s[1..];
      if TextLess(s[0].text, c.text) then [s[0]] + Insert(c, s[1..]) else [c] + s
  }

  /** An element no greater than anything in a sorted sequence may go in
      front of it. */
  lemma ConsSorted(x: Command, s: seq<Command>)
    requires SortedByText(s)
    requires forall j :: 0 <= j < |s| ==> !TextLess(s[j].text, x.text)
    ensures SortedByText([x] + s)
  {

  }

  lemma {:induction false} InsertSorted(c: Command, s: seq<Command>)
    requires SortedByText(s)
    ensures SortedByText(Insert(c, s))
  {
    if |s| == 0 {
    } else if TextLess(s[0].text, c.text) {
      InsertSorted(c, s[1..]);
      var r := Insert(c, s[1..]);
      forall j | 0 <= j < |r| ensures !TextLess(r[j].text, s[0].text) {
        assert r[j] in multiset(r);
        if r[j] == c {
          StrLessIsStrictTotal();
          LexAsymmetric(s[0].text, c.text, StrLess);
        } else {
          assert r[j] in multiset(s[1..]);
          var k :| 0 <= k < |s[1..]| && s[1..][k] == r[j];
          assert s[k + 1] == r[j];
        }
      }
      ConsSorted(s[0], r);
    } else {
      forall j | 0 <= j < |s| ensures !TextLess(s[j].text, c.text) {
        if j > 0 {
          StrLessIsStrictTotal();
          LexNotAfterTransitive(c.text, s[0].text, s[j].text, StrLess);
        }
      }
      ConsSorted(c, s);
    }
  }

  /** The sorted order `sort_` leaves in `commands_`. */
  function SortByText(s: seq<Command>): (r: seq<Command>)
    ensures multiset(r) == multiset(s)
    ensures SortedByText(r)
  {
    if |s| == 0 then []
    else
      var rest := SortByText(s[1..]);
      InsertSorted(s[0], rest);
      assert s == [s[0]] + s[1..];
      Insert(s[0], rest)
  }
}
