# CommonLibrary extensions: a verified model of the pure core

CommonLibrary is a small set of UIKit conveniences. Most of it wraps framework calls.
This project models the part that is plain logic, all of it in
`CommonLibrary/Classes/Extensions.swift`:

- `String.safelyLimitedTo(length:)` cuts a string to at most `n` Characters
  (module `StringLimit`, file `string_limit.dfy`). A Character is a grapheme cluster.
  Here it is an opaque element, the type parameter `C`, so counting is by Character and
  never by code unit.
- The `UITextField.maxLength` property reads and writes the process-wide side table
  `__maxLengths`. `fix(textField:)` is the editing-changed action that cuts the text to
  the bound (module `MaxLength`, file `max_length.dfy`). Fields are opaque identities
  (`FieldId`), the table is a `map<FieldId, Int>`, and a field's text is an
  `Option<seq<C>>`, the model of `String?`.
- `UIView.nibName` is the part of a type's description before its first `'.'`
  (module `NibName`, file `nib_name.dfy`). It is computed through a model of
  `components(separatedBy:)`, and `Components` and `Join` are proved inverse both ways.
- `UIViewController.topViewController()` follows `presentedViewController` links until
  none remain (module `TopViewController`, file `top_view_controller.dfy`). The links are
  a finite map from each controller to the one it presents. The map is acyclic: no chain
  of links returns to its start.

Supporting modules:
- `Wrappers` (`wrappers.dfy`) holds `Option`, which models Swift optionals and `??`.
- `SwiftInt` (`swift_int.dfy`) holds the 64-bit `Int` range: `Int.max` is 2^63 - 1.

Facts about the Swift code that shape the model:
- The `maxLength` setter accepts any `Int`, negative values included. `SetMaxLength` does
  too.
- With a negative bound, `fix` traps on any non-nil text, because `prefix(upTo:)` is given a
  negative index. The model excludes that case (see "Left out").
- `fix(textField:)` reads the text of its argument but the bound of `self`. The setter
  registers `self` as the target, and UIKit passes the field itself as the sender, so in
  practice they are the same field. `Fix` still takes the bound's owner (`self`) explicitly
  and returns the sender's new text.

## Model

| member | source | states |
|---|---|---|
| StringLimit.SafelyLimitedTo | CommonLibrary/Classes/Extensions.swift:65-70 | For n >= 0 the result is a prefix of the input of length min(count, n). It is the input itself when the count is at most n. A negative n is excluded because `prefix(upTo:)` traps on it. |
| StringLimit.LimitIdempotent | CommonLibrary/Classes/Extensions.swift:65-70 | Limiting twice to the same bound equals limiting once. |
| StringLimit.LimitCompose | CommonLibrary/Classes/Extensions.swift:65-70 | Limiting to m and then to n equals limiting to min(m, n). |
| StringLimit.LimitCharacterized | CommonLibrary/Classes/Extensions.swift:65-70 | A string is the limited result exactly when it is a prefix of the input of length min(count, n), in both directions. |
| StringLimit.LimitAppend | CommonLibrary/Classes/Extensions.swift:65-70 | Limiting, appending one Character and limiting again gives the same result as appending and limiting once. |
| StringLimit.LimitAfterKeystroke | CommonLibrary/Classes/Extensions.swift:66-69 | Appending one Character to a text that fits keeps it while the text is under the bound. At the bound the new Character is dropped. |
| StringLimit.WholeCharacters | CommonLibrary/Classes/Extensions.swift:69 | When each Character is a run of code units, the units of the limited text followed by the units of the dropped Characters are exactly the input's units. No Character is split. |
| NibName.Components | CommonLibrary/Classes/Extensions.swift:43 | `components(separatedBy:)` gives at least one piece and no piece contains the separator. Joining the pieces with the separator gives back the input. |
| NibName.ComponentsOfJoin | CommonLibrary/Classes/Extensions.swift:43 | Splitting the join of separator-free pieces gives back those pieces, so the round trip holds both ways. |
| NibName.NibName | CommonLibrary/Classes/Extensions.swift:42-45 | The `?? ""` fallback is never taken. The name is a prefix of the description with no '.'. It is followed in the description by '.' or by nothing, so it is everything before the first '.', and the whole description when there is no '.'. |
| MaxLength.EmptyIsUnbounded | CommonLibrary/Classes/Extensions.swift:152-158 | Before any set, every field reads `Int.max`. |
| MaxLength.GetAfterLastSet | CommonLibrary/Classes/Extensions.swift:152-162 | For a table built from empty by any sequence of sets, the getter on a field returns the value of the last set that named it. |
| MaxLength.GetAfterNoSet | CommonLibrary/Classes/Extensions.swift:152-158 | For a table built from empty by any sequence of sets, a field that no set named reads `Int.max`. |
| MaxLength.SetMaxLength | CommonLibrary/Classes/Extensions.swift:161-162 | The setter adds the field to the table's keys and records the new value for it. Every other entry is kept, and no entry is ever removed. |
| MaxLength.GetAfterSet | CommonLibrary/Classes/Extensions.swift:154-162 | Reading maxLength right after setting it to v gives v. |
| MaxLength.SetLeavesOthers | CommonLibrary/Classes/Extensions.swift:152-162 | Setting one field's bound leaves every other field's bound unchanged. |
| MaxLength.SetOverwrites | CommonLibrary/Classes/Extensions.swift:161-162 | A later set on the same field overwrites the earlier one. |
| MaxLength.SetsCommute | CommonLibrary/Classes/Extensions.swift:161-162 | Sets on two different fields do not interfere, so their order does not matter. |
| MaxLength.Fix | CommonLibrary/Classes/Extensions.swift:167-170 | nil text stays nil. Other text becomes a prefix of itself of length min(count, maxLength of self). The text must be nil or the bound non-negative. |
| MaxLength.FixUnbounded | CommonLibrary/Classes/Extensions.swift:156-170 | A field with no bound never has its text changed, since a String's count is at most `Int.max`. |
| MaxLength.FixTruncates | CommonLibrary/Classes/Extensions.swift:167-170 | fix changes the text exactly when it is longer than the bound, and then to its first bound Characters. |
| MaxLength.FixIdempotent | CommonLibrary/Classes/Extensions.swift:167-170 | Applying fix twice equals applying it once. |
| MaxLength.FixSeesOwnBound | CommonLibrary/Classes/Extensions.swift:152-170 | Setting another field's bound does not change what fix does to this field. |
| MaxLength.Typing | CommonLibrary/Classes/Extensions.swift:161-170 | Typing Characters one at a time, with fix run on the field's current text after each one, shows after each keystroke the whole typed text limited once to the bound. No shown text is longer than the bound. |
| MaxLength.TypingPastBound | CommonLibrary/Classes/Extensions.swift:161-170 | With bound 3 and an empty field, typing "a", "b", "c", "d" shows "a", "ab", "abc", "abc". |
| TopViewController.Top | CommonLibrary/Classes/Extensions.swift:116-122 | On an acyclic presentation map, the result presents nothing and is reached from self along presentation links. When self presents nothing, the result is self. The loop ends because each step visits a controller not visited before. |
| TopViewController.TopUnique | CommonLibrary/Classes/Extensions.swift:116-121 | Two chains from the same controller that both end at a controller presenting nothing are equal, so the top is unique. |

## Left out

- `fromNib` and `nib` (lines 13-53) load bundle and nib resources through UIKit. This is resource I/O.
- The alert helpers `showSimpleAlert`, `showErrorAlert` and `showAlert` (lines 75-114) present UI and schedule with `DispatchQueue.main.async`.
- The `UIColor` constants (lines 126-135) are floating-point RGB literals with no logic.
- `UISearchBar.backgroundView` (lines 139-149) does a key-value-coding lookup and mutates a layer.
- `encodeUriComponent` (lines 58-63) wraps Foundation's `addingPercentEncoding`. Its result depends on the Unicode classes of `NSCharacterSet.alphanumeric` and on UTF-8 encoding, and neither is part of this model.
- `Data.append(string:)` (lines 174-177) depends on Foundation's UTF-8 encoding and a force-unwrap.
- `dispatchSyncToMain` (lines 181-190) is about thread affinity and concurrency.
- The setter's `addTarget(_:action:for: .editingChanged)` subscription (line 163) is event-system plumbing. `Fix` is a function the caller applies after each edit.
- Grapheme-cluster segmentation itself is left out. Characters are opaque elements, and `WholeCharacters` states only that truncation keeps whole Characters.
- StringLimit.SafelyLimitedTo requires `n >= 0`. For a negative `n` the Swift code traps in `prefix(upTo:)`, and the model does not represent the trap.
- MaxLength.Fix requires the text to be nil or the bound non-negative. A field whose `maxLength` was set negative traps on its next non-nil edit, and the model does not represent the trap.
- MaxLength.Typing models only edits that append one Character. Other edits (deletion, paste, replacement) are covered by `Fix` applied to the edited text.
- NibName.NibName compares Unicode scalars (`char`), not Swift Characters. For the `'.'` that separates the parts of a type's description, the two give the same result.
- The derivation of a type's description (`"\(self)"`) is left out. `NibName` takes the description as input.
- TopViewController.Top requires `Acyclic(presented)`. On a cyclic presentation map the Swift loop at lines 118-120 never ends, so `Top` is not defined there. UIKit does not let a controller present one already in its chain.
