/** Lexicographic order, defined once over any element order and used twice:
    for `std::string` (character by character, which is also what `strcmp`
    computes on strings without an embedded NUL) and for
    `std::vector<std::string>` (token by token), the key `sort_` uses. */
module LexOrder {

  ghost predicate StrictTotalOrder<T(!new)>(less: (T, T) -> bool)
  {
    && (forall x :: !less(x, x))
    && (forall x, y, z :: less(x, y) && less(y, z) ==> less(x, z))
    && (forall x, y :: x != y ==> less(x, y) || less(y, x))
  }

  /** `a` sorts strictly before `b`: a proper prefix sorts first, otherwise the
      first differing element decides. */
  function LexLess<T(==)>(a: seq<T>, b: seq<T>, less: (T, T) -> bool): bool
  {
    if |a| == 0 then |b| > 0
    else if |b| == 0 then false
    else if a[0] == b[0] then LexLess(a[1..], b[1..], less)
    else less(a[0], b[0])
  }

  lemma {:induction false} LexIrreflexive<T>(a: seq<T>, less: (T, T) -> bool)
    ensures !LexLess(a, a, less)
  {
    if |a| > 0 {
      LexIrreflexive(a[1..], less);
    }
  }

  lemma {:induction false} LexTransitive<T(!new)>(a: seq<T>, b: seq<T>, c: seq<T>, less: (T, T) -> bool)
    requires StrictTotalOrder(less)
    requires LexLess(a, b, less) && LexLess(b, c, less)
    ensures LexLess(a, c, less)
  {
    if |a| > 0 && a[0] == b[0] && b[0] == c[0] {
      LexTransitive(a[1..], b[1..], c[1..], less);
    }
  }

  lemma {:induction false} LexTotal<T(!new)>(a: seq<T>, b: seq<T>, less: (T, T) -> bool)
    requires StrictTotalOrder(less)
    requires a != b
    ensures LexLess(a, b, less) || LexLess(b, a, less)
  {
    if |a| > 0 && |b| > 0 && a[0] == b[0] {
      assert a == [a[0]] + a[1..] && b == [b[0]] + b[1..];
      LexTotal(a[1..], b[1..], less);
    }
  }

  lemma LexAsymmetric<T(!new)>(a: seq<T>, b: seq<T>, less: (T, T) -> bool)
    requires StrictTotalOrder(less)
    requires LexLess(a, b, less)
    ensures !LexLess(b, a, less)
  {

  }

  /** "Not after" is transitive: the non-strict order a sort produces chains. */
  lemma LexNotAfterTransitive<T(!new)>(a: seq<T>, b: seq<T>, c: seq<T>, less: (T, T) -> bool)
    requires StrictTotalOrder(less)
    requires !LexLess(b, a, less) && !LexLess(c, b, less)
    ensures !LexLess(c, a, less)
  {

  }

  /** Two sequences with a common prefix compare as their remainders do. */
  lemma {:induction false} LexLessDropPrefix<T>(a: seq<T>, b: seq<T>, p: nat, less: (T, T) -> bool)
    requires p <= |a| && p <= |b| && a[..p] == b[..p]
    ensures LexLess(a, b, less) == LexLess(a[p..], b[p..], less)
  {
    if p > 0 {
      assert a[0] == a[..p][0] && b[0] == b[..p][0];
      assert a[1..][..p - 1] == a[..p][1..] && b[1..][..p - 1] == b[..p][1..];
      assert a[1..][p - 1..] == a[p..] && b[1..][p - 1..] == b[p..];
      LexLessDropPrefix(a[1..], b[1..], p - 1, less);
    }
  }

  /** Bytes compare as `unsigned char`, as `strcmp` and `std::char_traits<char>` do. */
  function CharLess(x: char, y: char): bool
  {
    x < y
  }

  /** The order of `std::string::operator<` (and of `strcmp` on NUL-free strings). */
  function StrLess(a: string, b: string): bool
  {
    LexLess(a, b, CharLess)
  }

  /** The order of `std::vector<std::string>::operator<`. */
  function TextLess(a: seq<string>, b: seq<string>): bool
  {
    LexLess(a, b, StrLess)
  }

  lemma StrLessIsStrictTotal()
    ensures StrictTotalOrder(StrLess)
  {
    assert StrictTotalOrder(CharLess);
    forall x: string ensures !StrLess(x, x) {
      LexIrreflexive(x, CharLess);
    }
    forall x: string, y: string, z: string | StrLess(x, y) && StrLess(y, z) ensures StrLess(x, z) {
      LexTransitive(x, y, z, CharLess);
    }
    forall x: string, y: string | x != y ensures StrLess(x, y) || StrLess(y, x) {
      LexTotal(x, y, CharLess);
    }
  }

  lemma TextLessIsStrictTotal()
    ensures StrictTotalOrder(TextLess)
  {
    StrLessIsStrictTotal();
    forall x: seq<string> ensures !TextLess(x, x) {
      LexIrreflexive(x, StrLess);
    }
    forall x: seq<string>, y: seq<string>, z: seq<string> | TextLess(x, y) && TextLess(y, z)
      ensures TextLess(x, z)
    {
      LexTransitive(x, y, z, StrLess);
    }
    forall x: seq<string>, y: seq<string> | x != y ensures TextLess(x, y) || TextLess(y, x) {
      LexTotal(x, y, StrLess);
    }
  }
}
