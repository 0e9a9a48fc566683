/** `UITextField.maxLength` and `fix(textField:)`: a process-wide side table
    `__maxLengths` from text-field identity to a Swift `Int` bound, read with a default
    of `Int.max`, and an editing-changed action that cuts the text down to the bound. */
module MaxLength {
  import opened Wrappers
  import opened SwiftInt
  import opened StringLimit

  /** A text field's identity: the side table is keyed by object identity, so two
      fields with the same contents are still two keys. */
  datatype FieldId = FieldId(handle: nat)

  /** The side table `__maxLengths`. It starts empty and has no removal operation. */
  type Registry = map<FieldId, Int>

  const EmptyRegistry: Registry := map[]

  /** The `maxLength` getter: the recorded bound, or `Int.max` for a field that has none. */
  function GetMaxLength(reg: Registry, f: FieldId): Int {
    if f in reg then reg[f] else IntMax
  }

  /** The `maxLength` setter: records `v` for `f`, replacing any earlier bound. Any `Int`
      is accepted, negative ones included; entries are only ever added or replaced. */
  function SetMaxLength(reg: Registry, f: FieldId, v: Int): (reg': Registry)
    ensures reg'.Keys == reg.Keys + {f}
    ensures reg'[f] == v
    ensures forall g :: g in reg && g != f ==> reg'[g] == reg[g]
  {
    reg[f := v]
  }

  /** `fix(textField:)` run on the field `self` for the sender whose text is `text`:
      `nil` stays `nil`, any other text becomes its limit to `self.maxLength`. A negative
      bound makes the truncation trap on a text, so that combination is excluded. */
  function Fix<C>(reg: Registry, self: FieldId, text: Option<seq<C>>): (text': Option<seq<C>>)
    requires text.None? || GetMaxLength(reg, self) >= 0
    ensures text'.None? <==> text.None?
    ensures text.Some? ==> IsPrefix(text'.value, text.value)
    ensures text.Some? ==> |text'.value| == Min(|text.value|, GetMaxLength(reg, self))
  {
    match text
    case None => None
    case Some(t) => Some(SafelyLimitedTo(t, GetMaxLength(reg, self)))
  }

  /** Reading a bound right after setting it gives the value set. */
  lemma GetAfterSet(reg: Registry, f: FieldId, v: Int)
    ensures GetMaxLength(SetMaxLength(reg, f, v), f) == v
  {
  }

  /** Setting one field's bound leaves every other field's bound as it was. */
  lemma SetLeavesOthers(reg: Registry, f: FieldId, g: FieldId, v: Int)
    requires g != f
    ensures GetMaxLength(SetMaxLength(reg, f, v), g) == GetMaxLength(reg, g)
  {
  }

  /** A later set overwrites an earlier one on the same field. */
  lemma SetOverwrites(reg: Registry, f: FieldId, v: Int, w: Int)
    ensures SetMaxLength(SetMaxLength(reg, f, v), f, w) == SetMaxLength(reg, f, w)
  {
  }

  /** Sets on two different fields do not interfere: their order does not matter. */
  lemma SetsCommute(reg: Registry, f: FieldId, g: FieldId, v: Int, w: Int)
    requires f != g
    ensures SetMaxLength(SetMaxLength(reg, f, v), g, w) == SetMaxLength(SetMaxLength(reg, g, w), f, v)
  {
  }

  /** Every field of a fresh table reads as unbounded. */
  lemma EmptyIsUnbounded(f: FieldId)
    ensures GetMaxLength(EmptyRegistry, f) == IntMax
  {
  }

  /** A field with no bound never has its text changed: a Swift `String`'s count is an
      `Int`, so it is at most `Int.max`. */
  lemma FixUnbounded<C>(reg: Registry, self: FieldId, text: Option<seq<C>>)
    requires self !in reg
    requires text.None? || |text.value| <= IntMax
    ensures Fix(reg, self, text) == text
  {
  }

  /** `fix` changes the text exactly when the text is longer than the bound, and then
      to its first `bound` Characters. */
  lemma FixTruncates<C>(reg: Registry, self: FieldId, t: seq<C>)
    requires GetMaxLength(reg, self) >= 0
    ensures var bound := GetMaxLength(reg, self);
      && (Fix(reg, self, Some(t)) != Some(t) <==> |t| > bound)
      && (|t| > bound ==> Fix(reg, self, Some(t)) == Some(t[..bound]))
  {
  }

  /** Running `fix` a second time changes nothing. */
  lemma FixIdempotent<C>(reg: Registry, self: FieldId, text: Option<seq<C>>)
    requires text.None? || GetMaxLength(reg, self) >= 0
    ensures Fix(reg, self, Fix(reg, self, text)) == Fix(reg, self, text)
  {
  }

  /** Two fields with the same text and the same bound are fixed independently: fixing
      one after a set on the other sees only its own bound. */
  lemma FixSeesOwnBound<C>(reg: Registry, f: FieldId, g: FieldId, v: Int, text: Option<seq<C>>)
    requires f != g
    requires text.None? || GetMaxLength(reg, f) >= 0
    ensures Fix(SetMaxLength(reg, g, v), f, text) == Fix(reg, f, text)
  {
  }

  /** The side table after the setter has run for each `(field, value)` of `sets`, in
      order, starting from the empty table. */
  function Build(sets: seq<(FieldId, Int)>): Registry {
    if |sets| == 0 then EmptyRegistry
    else
      var last := sets[|sets| - 1];
      SetMaxLength(Build(sets[..|sets| - 1]), last.0, last.1)
  }

  /** No set after index `i` names `f`. */
  predicate LastSetAt(sets: seq<(FieldId, Int)>, f: FieldId, i: int) {
    forall j :: 0 <= j < |sets| && i < j ==> sets[j].0 != f
  }

  /** On a table built from empty by `sets`, a field that no set named reads `Int.max`. */
  lemma {:induction false} GetAfterNoSet(sets: seq<(FieldId, Int)>, f: FieldId)
    requires forall i :: 0 <= i < |sets| ==> sets[i].0 != f
    ensures GetMaxLength(Build(sets), f) == IntMax
  {
    if |sets| > 0 {
      var init := sets[..|sets| - 1];
      assert forall i :: 0 <= i < |init| ==> init[i] == sets[i];
      GetAfterNoSet(init, f);
    }
  }

  /** On a table built from empty by `sets`, the getter on `f` returns the value of the
      last set that named `f`: earlier sets on `f` are overwritten and sets on other
      fields leave it alone. */
  lemma {:induction false} GetAfterLastSet(sets: seq<(FieldId, Int)>, f: FieldId, i: int)
    requires 0 <= i < |sets| && sets[i].0 == f && LastSetAt(sets, f, i)
    ensures GetMaxLength(Build(sets), f) == sets[i].1
  {
    var init := sets[..|sets| - 1];
    if i < |sets| - 1 {
      assert init[i] == sets[i];
      assert LastSetAt(init, f, i) by {
        assert forall j :: 0 <= j < |init| ==> init[j] == sets[j];
      }
      GetAfterLastSet(init, f, i);
    }
  }

  /** The texts shown while the user types `keys` one Character at a time into a field
      whose text was `start`, with `fix` run after every keystroke on the text the field
      then holds. Each shown text is the whole typed text limited once to the bound:
      cutting after every keystroke loses nothing more than cutting at the end, and no
      shown text is longer than the bound. */
  function Typing<C>(reg: Registry, self: FieldId, start: seq<C>, keys: seq<C>): (shown: seq<seq<C>>)
    requires GetMaxLength(reg, self) >= 0
    ensures |shown| == |keys|
    ensures forall i :: 0 <= i < |keys| ==>
      shown[i] == SafelyLimitedTo(start + keys[..i + 1], GetMaxLength(reg, self))
    ensures forall i :: 0 <= i < |keys| ==> |shown[i]| <= GetMaxLength(reg, self)
  {
    if |keys| == 0 then []
    else
      var bound := GetMaxLength(reg, self);
      var init := keys[..|keys| - 1];
      var c := keys[|keys| - 1];
      var prev := Typing(reg, self, start, init);
      var current := if |prev| == 0 then start else prev[|prev| - 1];
      var next := Fix(reg, self, Some(current + [c])).value;
      assert next == SafelyLimitedTo(start + keys, bound) by {
        assert start + keys == (start + init) + [c];
        if |prev| > 0 {
          assert init[..|init|] == init;
          LimitAppend(start + init, c, bound);
        } else {
          assert init == [];
        }
      }
      forall i | 0 <= i < |init|
        ensures prev[i] == SafelyLimitedTo(start + keys[..i + 1], bound)
      {
        assert init[..i + 1] == keys[..i + 1];
      }
      prev + [next]
  }

  /** With a bound of 3 and an empty field, typing "a", "b", "c", "d" shows "a", "ab",
      "abc", "abc": the fourth keystroke is cut back. */
  lemma TypingPastBound()
    ensures var f := FieldId(0);
      Typing(SetMaxLength(EmptyRegistry, f, 3), f, "", "abcd") == ["a", "ab", "abc", "abc"]
  {
    var f := FieldId(0);
    var reg := SetMaxLength(EmptyRegistry, f, 3);
    var shown := Typing(reg, f, "", "abcd");
    assert "" + "abcd"[..1] == "a";
    assert "" + "abcd"[..2] == "ab";
    assert "" + "abcd"[..3] == "abc";
    assert "" + "abcd"[..4] == "abcd";
    assert "abcd"[..3] == "abc";
  }
}
