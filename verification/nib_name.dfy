/** `UIView.nibName`: the part of a type's description before its first `'.'`,
    computed as `components(separatedBy: ".").first ?? ""`. */
module NibName {
  import opened Wrappers
  import opened StringLimit

  /** Rejoins pieces with `sep` between consecutive ones (`joined(separator:)`). */
  function Join<C>(parts: seq<seq<C>>, sep: C): seq<C>
    requires |parts| >= 1
  {
    if |parts| == 1 then parts[0] else parts[0] + [sep] + Join(parts[1..], sep)
  }

  /** `components(separatedBy:)` with a one-element separator: the maximal runs of
      `s` between occurrences of `sep`. There is always at least one piece (the empty
      string gives one empty piece), no piece holds `sep`, and joining the pieces with
      `sep` gives back `s`. */
  function Components<C(==)>(s: seq<C>, sep: C): (parts: seq<seq<C>>)
    ensures |parts| >= 1
    ensures forall i :: 0 <= i < |parts| ==> sep !in parts[i]
    ensures Join(parts, sep) == s
  {
    if |s| == 0 then [[]]
    else
      var rest := Components(s[1..], sep);
      if s[0] == sep then
        assert Join([[]] + rest, sep) == [sep] + Join(rest, sep) by {
          assert ([[]] + rest)[1..] == rest;
        }
        [[]] + rest
      else
        var parts := [[s[0]] + rest[0]] + rest[1..];
        assert Join(parts, sep) == [s[0]] + Join(rest, sep) by {
          if |rest| > 1 {
            assert parts[1..] == rest[1..];
          }
        }
        parts
  }

  /** Splitting pieces that hold no separator after joining them gives the pieces back:
      `Components` and `Join` are inverse both ways. */
  lemma {:induction false} ComponentsOfJoin<C>(parts: seq<seq<C>>, sep: C)
    requires |parts| >= 1
    requires forall i :: 0 <= i < |parts| ==> sep !in parts[i]
    ensures Components(Join(parts, sep), sep) == parts
  {
    if |parts| == 1 {
      ComponentsOfPlain(parts[0], sep);
    } else {
      var tail := Join(parts[1..], sep);
      ComponentsOfJoin(parts[1..], sep);
      ComponentsPrepend(parts[0], sep, tail);
      assert parts == [parts[0]] + parts[1..];
    }
  }

  /** A string without the separator is a single piece. */
  lemma ComponentsOfPlain<C>(s: seq<C>, sep: C)
    requires sep !in s
    ensures Components(s, sep) == [s]
  {
  }

  /** Prefixing a separator-free run and a separator adds that run as the first piece. */
  lemma {:induction false} ComponentsPrepend<C>(a: seq<C>, sep: C, t: seq<C>)
    requires sep !in a
    ensures Components(a + [sep] + t, sep) == [a] + Components(t, sep)
  {
    if |a| == 0 {
      assert a + [sep] + t == [sep] + t;
      assert ([sep] + t)[1..] == t;
    } else {
      var s := a + [sep] + t;
      assert s[1..] == a[1..] + [sep] + t;
      ComponentsPrepend(a[1..], sep, t);
      assert [a[0]] + a[1..] == a;
    }
  }

  /** The first element of a sequence, if any (`Array.first`). */
  function First<T>(xs: seq<T>): Option<T> {
    if |xs| == 0 then None else Some(xs[0])
  }

  /** The nib name of a type whose description is `description`. The `?? ""` fallback
      is never taken because `Components` is never empty. The result is the part of the
      description before its first `'.'`: a prefix holding no `'.'`, followed in the
      description either by nothing or by a `'.'`. */
  function NibName(description: string): (name: string)
    ensures First(Components(description, '.')).Some?
    ensures IsPrefix(name, description)
    ensures '.' !in name
    ensures |name| < |description| ==> description[|name|] == '.'
    ensures '.' !in description ==> name == description
  {
    var parts := Components(description, '.');
    assert Join(parts, '.') == description;
    assert |parts| > 1 ==> description == parts[0] + ['.'] + Join(parts[1..], '.');
    First(parts).Coalesce("")
  }
}
