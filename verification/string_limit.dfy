/** `String.safelyLimitedTo(length:)`: cut a string down to at most `n` Characters.
    A Swift `Character` is a grapheme cluster; here it is the type parameter `C`, an
    opaque element, so a Character is never split by construction. */
module StringLimit {
  import opened SwiftInt

  function Min(a: int, b: int): int {
    if a <= b then a else b
  }

  /** True iff `p` is an initial segment of `s`. */
  predicate IsPrefix<C(==)>(p: seq<C>, s: seq<C>) {
    |p| <= |s| && p == s[..|p|]
  }

  /** The string unchanged when its count is at most `n`, otherwise its first `n`
      Characters. A negative `n` makes `prefix(upTo:)` trap, so it is excluded. */
  function SafelyLimitedTo<C>(s: seq<C>, n: int): (r: seq<C>)
    requires 0 <= n
    ensures |r| == Min(|s|, n)
    ensures r == s[..|r|]
    ensures |s| <= n ==> r == s
  {
    if |s| <= n then s else s[..n]
  }

  /** Limiting twice to the same bound is limiting once. */
  lemma LimitIdempotent<C>(s: seq<C>, n: int)
    requires 0 <= n
    ensures SafelyLimitedTo(SafelyLimitedTo(s, n), n) == SafelyLimitedTo(s, n)
  {
  }

  /** Limiting to `m` then to `n` is limiting to the smaller of the two. */
  lemma LimitCompose<C>(s: seq<C>, m: int, n: int)
    requires 0 <= m && 0 <= n
    ensures SafelyLimitedTo(SafelyLimitedTo(s, m), n) == SafelyLimitedTo(s, Min(m, n))
  {
  }

  /** The result is the unique prefix of `s` whose length is `min(count, n)`. */
  lemma LimitCharacterized<C>(s: seq<C>, n: int, p: seq<C>)
    requires 0 <= n
    ensures p == SafelyLimitedTo(s, n) <==> IsPrefix(p, s) && |p| == Min(|s|, n)
  {
  }

  /** Limiting, appending one Character and limiting again is the same as appending
      and limiting once: a text that was already cut loses nothing more by being cut
      again after the next keystroke. */
  lemma LimitAppend<C>(s: seq<C>, c: C, n: int)
    requires 0 <= n
    ensures SafelyLimitedTo(SafelyLimitedTo(s, n) + [c], n) == SafelyLimitedTo(s + [c], n)
  {
    if |s| >= n {
      assert (s + [c])[..n] == s[..n];
    }
  }

  /** Typing one more Character `c` onto a text that already fits: the new text is kept
      while it fits, and at the bound the keystroke is dropped. */
  lemma LimitAfterKeystroke<C>(t: seq<C>, c: C, n: int)
    requires 0 <= n && |t| <= n
    ensures SafelyLimitedTo(t + [c], n) == if |t| < n then t + [c] else t
  {
  }

  /** The concatenation of the code units of a sequence of Characters. */
  function Flatten<U>(s: seq<seq<U>>): seq<U> {
    if |s| == 0 then [] else s[0] + Flatten(s[1..])
  }

  lemma {:induction false} FlattenAppend<U>(a: seq<seq<U>>, b: seq<seq<U>>)
    ensures Flatten(a + b) == Flatten(a) + Flatten(b)
  {
    if |a| == 0 {
      assert a + b == b;
    } else {
      assert (a + b)[1..] == a[1..] + b;
      FlattenAppend(a[1..], b);
    }
  }

  /** Counting by Characters never cuts one apart: when each Character is a run of
      code units, the units of the limited text followed by the units of the dropped
      Characters give back exactly the units of the input, and the limited text is a
      whole number of Characters. */
  lemma WholeCharacters<U>(s: seq<seq<U>>, n: int)
    requires 0 <= n
    ensures var r := SafelyLimitedTo(s, n);
      Flatten(r) + Flatten(s[|r|..]) == Flatten(s)
  {
    var r := SafelyLimitedTo(s, n);
    assert s == r + s[|r|..];
    FlattenAppend(r, s[|r|..]);
  }
}
