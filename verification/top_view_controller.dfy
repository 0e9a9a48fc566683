/** `UIViewController.topViewController()`: follow `presentedViewController` links
    from a controller until reaching one that presents nothing. */
module TopViewController {

  /** A view controller's identity. */
  datatype Controller = Controller(handle: nat)

  /** The `presentedViewController` links: `c in presented` iff `c` presents a
      controller, namely `presented[c]`. */
  type Presentation = map<Controller, Controller>

  /** `path` follows presentation links: each element presents the next one. */
  ghost predicate IsChain(presented: Presentation, path: seq<Controller>) {
    forall i :: 0 <= i < |path| - 1 ==> path[i] in presented && presented[path[i]] == path[i + 1]
  }

  /** No controller reaches itself again by one or more presentation links. UIKit lets
      a controller present at most one other controller at a time and never one already
      in its own chain, so presentation chains are finite. */
  ghost predicate Acyclic(presented: Presentation) {
    forall path: seq<Controller> :: |path| >= 2 && IsChain(presented, path) ==> path[0] != path[|path| - 1]
  }

  /** The set of elements of a sequence. */
  ghost function Elements(s: seq<Controller>): set<Controller> {
    set x | x in s
  }

  /** The top of the presentation chain starting at `start`: a controller reachable from
      `start` by presentation links that presents nothing itself. When `start` presents
      nothing, it is its own top. */
  method Top(presented: Presentation, start: Controller) returns (top: Controller, ghost path: seq<Controller>)
    requires Acyclic(presented)
    ensures top !in presented
    ensures |path| >= 1 && path[0] == start && path[|path| - 1] == top
    ensures IsChain(presented, path)
    ensures start !in presented ==> top == start
  {
    top := start;
    path := [start];
    while top in presented
      invariant |path| >= 1 && path[0] == start && path[|path| - 1] == top
      invariant IsChain(presented, path)
      invariant forall i :: 0 <= i < |path| - 1 ==> path[i] != top
      invariant Elements(path[..|path| - 1]) <= presented.Keys
      decreases presented.Keys - Elements(path[..|path| - 1])
    {
      var next := presented[top];
      ghost var visited := Elements(path[..|path| - 1]);
      forall i | 0 <= i < |path|
        ensures path[i] != next
      {
        NoReturn(presented, path, i, next);
      }
      path := path + [next];
      assert path[..|path| - 1] == path[..|path| - 2] + [top];
      assert Elements(path[..|path| - 1]) == visited + {top};
      top := next;
    }
  }

  /** On an acyclic presentation, a chain cannot be extended back onto one of its own
      elements. */
  lemma NoReturn(presented: Presentation, path: seq<Controller>, i: int, next: Controller)
    requires Acyclic(presented)
    requires IsChain(presented, path) && |path| >= 1 && 0 <= i < |path|
    requires path[|path| - 1] in presented && presented[path[|path| - 1]] == next
    ensures path[i] != next
  {
    var loop := path[i..] + [next];
    assert IsChain(presented, loop) by {
      forall j | 0 <= j < |loop| - 1
        ensures loop[j] in presented && presented[loop[j]] == loop[j + 1]
      {
        if j < |path| - i - 1 {
          assert loop[j] == path[i + j] && loop[j + 1] == path[i + j + 1];
        }
      }
    }
    assert loop[0] == path[i] && loop[|loop| - 1] == next;
  }

  /** The top is unique: any two chains from the same controller that both end at a
      controller presenting nothing are the same chain, so the result of `Top` does not
      depend on how it is found. */
  lemma {:induction false} TopUnique(presented: Presentation, p: seq<Controller>, q: seq<Controller>)
    requires |p| >= 1 && |q| >= 1 && p[0] == q[0]
    requires IsChain(presented, p) && IsChain(presented, q)
    requires p[|p| - 1] !in presented && q[|q| - 1] !in presented
    ensures p == q
  {
    if |p| > 1 && |q| > 1 {
      assert p[1] == presented[p[0]] == q[1];
      TopUnique(presented, p[1..], q[1..]);
      assert p == [p[0]] + p[1..] && q == [q[0]] + q[1..];
    }
  }
}
