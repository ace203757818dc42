# Foundatee core, modelled in Dafny

This project models the parts of the Foundatee Swift utility library whose behaviour can be stated exactly, and proves properties of the model.

- **Stateful components.** There are three, each modelled as Dafny classes whose methods update fields in place:
  - the intrusive doubly-linked `LinkedList` and its `Node`s;
  - the observable `@Witness` cell with its `Disposable` unsubscribe handles and the shared `MutableReference`;
  - the crash-safe `DispatchTimer` state machine.
- **Array and string helpers.** These are functions. Where the Swift code loops, they are methods with loops. A `mutating` helper on an array or string edits an `ArrayVar` or `StringVar` object in place.
- **Base64 shape check.** `isBase64EncodedString` is modelled together with an encoder for section 4 of RFC 4648.
- **OptionSet bit iterator.** `OptionSetIterator` and `count`.
- **Scalar helpers.** The `<!` and `>!` operators and `Int.limitedString(digits:)`.
- **Codable helpers.** Their decision logic: the enum fallback, failure-skipping array decoding, and the first-matching-key lookup. A decoder is reduced to the `Result`/`Option` outcomes of its reads.

Modules, one per source file:
- `LinkedLists` (linked_list.dfy)
- `Observation` (witness.dfy)
- `Timers` (dispatch_timer.dfy)
- `ArrayExtension` (array_extension.dfy)
- `StringExtension` (string_extension.dfy)
- `StringUtility` (string_utility.dfy)
- `OptionSets` (option_set.dfy)
- `CommonScalar` (common_scalar.dfy)
- `CodableEnum` (codable_enum.dfy)
- `SafelyDecoding` (safely_decodable.dfy)
- `CodableHelpers` (codable_helpers.dfy)

`Wrappers` (wrappers.dfy) holds `Option` and `Result`.

Representations:
- **Closures.** An observer closure is an observer id. Calling it appends `(id, value)` to the cell's call log.
- **Timer source.** The timer's dispatch source is the trace of calls made on it. Times are integer ticks.
- **Option-set raw value.** A 64-bit raw value is the set of positions of its one bits. In that form:
  - `&` is intersection and `& ~` is difference;
  - `0` is the empty set;
  - the wrapping product `&* 2` shifts every position up by one and drops position 63.
- **Characters.** Strings are sequences of Dafny `char`s, each one Unicode scalar, and character sets are predicates on characters, over ASCII. A Swift `Character` is a grapheme cluster, so `"\r\n"` is two characters here and one in Swift. Counts by `count` therefore agree with the source only on text without such clusters; this affects the length of `ArrayExtension.Int8String` and the `count` that `reachLength` compares with `length`.

## Model

| member | source | states |
|---|---|---|
| LinkedLists.Node.constructor | Sources/Utility/LinkedList.swift:17-19 | A new node holds its value and has no neighbours. |
| LinkedLists.Node.Bypass | Sources/Utility/LinkedList.swift:54-55 | The predecessor's `next` and the successor's `previous` now skip the node; nothing else changes. |
| LinkedLists.Node.Unlink | Sources/Utility/LinkedList.swift:69-70 | The node's own `next` and `previous` are nil afterwards. |
| LinkedLists.LinkedList.constructor | Sources/Utility/LinkedList.swift:6-9 | A new list is well formed and empty. |
| LinkedLists.LinkedList.EndsAgree | Sources/Utility/LinkedList.swift:7-8 | In a well-formed list `firstNode` is nil exactly when `lastNode` is, exactly when the list has no nodes. |
| LinkedLists.LinkedList.Append | Sources/Utility/LinkedList.swift:39-51 | The result is a fresh node holding the value. It becomes `lastNode`, linked after the old last node. `firstNode` changes only if the list was empty. The node sequence and the values grow by exactly that node and value. The list stays well formed. |
| LinkedLists.LinkedList.MoveEndsOff | Sources/Utility/LinkedList.swift:59-65 | `firstNode`/`lastNode` move to the node's successor/predecessor when the node was that end, and are otherwise unchanged. |
| LinkedLists.LinkedList.RemovedIsValid | Sources/Utility/LinkedList.swift:53-71 | Rewiring around the node at index `i` leaves a well-formed list. Its values are the old values with entry `i` deleted. |
| LinkedLists.LinkedList.Remove | Sources/Utility/LinkedList.swift:53-71 | The node ends detached and the list stays well formed. Its neighbours point past it, and both ends are repaired. For a member node, the nodes and values are the old ones with that one entry deleted and the rest in order. For an already-removed node nothing changes. |
| LinkedLists.LinkedList.MakeIterator | Sources/Utility/LinkedList.swift:24-25 | The iterator starts at `firstNode`, at position 0. |
| LinkedLists.ListIterator.Next | Sources/Utility/LinkedList.swift:26-32 | Each call yields the value at the iterator's position and advances by one. At the end it yields nil and stays put. |
| LinkedLists.Elements | Sources/Utility/LinkedList.swift:23-33 | Iterating to exhaustion yields exactly the list's values in order; the iteration terminates. |
| LinkedLists.DistinctAfterDelete | Sources/Utility/LinkedList.swift:53-71 | Deleting one node keeps the nodes distinct. It also gives the new first and last node. |
| LinkedLists.LinkedAfterDelete | Sources/Utility/LinkedList.swift:53-71 | If the links are correct everywhere except around the removed node, and the two neighbours are rewired, then the remaining nodes are correctly linked. |
| Observation.Notifications | Sources/Utility/Witness.swift:21-25 | A broadcast makes one call per registered observer. |
| Observation.NotificationsAt | Sources/Utility/Witness.swift:21-25 | The k-th call of a broadcast goes to the k-th registered observer, with the broadcast value. |
| Observation.NotNotifiedUnlessRegistered | Sources/Utility/Witness.swift:21-25 | A broadcast never calls an observer that is not registered. |
| Observation.NotificationsStep | Sources/Utility/Witness.swift:22-24 | Broadcasting to one more observer adds exactly one call at the end. |
| Observation.Reference.constructor | Sources/Utility/Witness.swift:67-69 | The reference holds the given value. |
| Observation.Reference.Update | Sources/Utility/Witness.swift:73-75 | `update(with:)` replaces the held value. |
| Observation.Disposable.constructor | Sources/Utility/Witness.swift:32-34 | A new handle has its unregistering closure set, over the given registry and node. |
| Observation.Disposable.Dispose | Sources/Utility/Witness.swift:40-43 | The first call on a live registry removes exactly this handle's node. The other observers stay registered in order. Afterwards the closure is cleared. A second call, or a call after the registry is gone, changes nothing. |
| Observation.Disposable.Deinit | Sources/Utility/Witness.swift:36-38 | Destroying the handle disposes it, with the same effect as `Dispose`. |
| Observation.Disposable.RegistryReleased | Sources/Utility/Witness.swift:55-56 | When the registry goes away, the weak capture reads nil. |
| Observation.Witness.constructor | Sources/Utility/Witness.swift:15-17 | A new cell holds the value, with no observers and no calls. |
| Observation.Witness.Observe | Sources/Utility/Witness.swift:47-58 | The new observer is called once with the current value, then registered last. The registry order is otherwise kept. The handle returned is armed over this cell's registry. |
| Observation.Witness.SetWrappedValue | Sources/Utility/Witness.swift:9 | Assigning the value calls every registered observer once, in registration order, with the new value. |
| Observation.Witness.ValueDidChange | Sources/Utility/Witness.swift:21-25 | The call log grows by exactly one broadcast of the current value to the registered observers. |
| Observation.ObserveThenDispose | Sources/Utility/Witness.swift:47-58 | After subscribing and disposing, the observer got the one initial call and nothing from later assignments. The registry is as before. |
| Timers.ResumeSuspendBalance | Sources/Utility/DispatchTimer.swift:76-86 | In an alternating resume/suspend sequence, resumes exceed suspends by 1 after an odd number of calls and by 0 otherwise. |
| Timers.CountToggles | Sources/Utility/DispatchTimer.swift:76-86 | Keeping only the resume and suspend calls of a trace does not change how many of each there are. |
| Timers.NextTolerance | Sources/Utility/DispatchTimer.swift:32-33 | A suppressed fire leaves a tolerance that is non-negative and strictly smaller, either `tolerance - timeInterval` or 0. |
| Timers.ToleranceCountdown | Sources/Utility/DispatchTimer.swift:32-33 | While the tolerance is positive, k fires leave `max(0, tolerance - k * timeInterval)`. |
| Timers.CeilingBounds | Sources/Utility/DispatchTimer.swift:32-33 | The number of suppressed fires is the ceiling of tolerance over interval: at least 1, and within one interval of the tolerance. |
| Timers.ToleranceSuppression | Sources/Utility/DispatchTimer.swift:32-33 | With a positive interval, exactly ⌈tolerance/timeInterval⌉ consecutive fires find a positive tolerance. After them the tolerance is 0. |
| Timers.DispatchTimer.Balanced | Sources/Utility/DispatchTimer.swift:76-86 | On the source, resumes exceed suspends by 1 while the timer is resumed and by 0 while it is suspended. |
| Timers.DispatchTimer.constructor | Sources/Utility/DispatchTimer.swift:59-63 | A new timer is suspended, with tolerance 0 and no source calls. |
| Timers.DispatchTimer.Timer | Sources/Utility/DispatchTimer.swift:23-44 | The first access creates the source (schedule, then install the handler). Later accesses change nothing. |
| Timers.DispatchTimer.Resume | Sources/Utility/DispatchTimer.swift:76-80 | Resuming a resumed timer changes nothing. Resuming a suspended one sets `resumed`, creates the source if needed and calls its `resume` exactly once. The calls keep alternating. |
| Timers.DispatchTimer.Suspend | Sources/Utility/DispatchTimer.swift:82-86 | Suspending a suspended timer changes nothing. Suspending a resumed one sets `suspended`, creates the source if needed and calls its `suspend` exactly once. The calls keep alternating. |
| Timers.DispatchTimer.SetTolerance | Sources/Utility/DispatchTimer.swift:19-21 | Setting the tolerance changes nothing else. |
| Timers.DispatchTimer.Fire | Sources/Utility/DispatchTimer.swift:30-42 | With a positive tolerance, a fire shrinks it to `max(0, tolerance - timeInterval)` and runs no handler. Otherwise the handler, if set, runs once and the tolerance is unchanged. |
| Timers.DispatchTimer.Deinit | Sources/Utility/DispatchTimer.swift:65-74 | Teardown replaces the handler, then cancels. It resumes the source exactly when the timer was suspended, so never twice in a row. Then it drops the handler. |
| ArrayExtension.Int8String | Sources/Foundatee/Array+Extension.swift:13-19 | `string` is never nil. Its length is the number of non-zero items, since every zero is skipped. |
| ArrayExtension.Int8StringOfCodes | Sources/Foundatee/Array+Extension.swift:13-19 | The string of the codes of a NUL-free ASCII string is that string. |
| ArrayExtension.Int8StringSkipsZero | Sources/Foundatee/Array+Extension.swift:13-19 | A zero in the middle is dropped and reading goes on past it; it is not a terminator. |
| ArrayExtension.Dedup | Sources/Foundatee/Array+Extension.swift:41-44 | The first occurrences have the same elements as the input. |
| ArrayExtension.Unique | Sources/Foundatee/Array+Extension.swift:41-44 | The filter over the `seen` dictionary keeps exactly the first occurrence of each element, in order. |
| ArrayExtension.DedupNoDuplicates | Sources/Foundatee/Array+Extension.swift:41-44 | The result of `unique` has no duplicates. |
| ArrayExtension.DedupOfDistinct | Sources/Foundatee/Array+Extension.swift:41-44 | `unique` leaves a duplicate-free array unchanged. |
| ArrayExtension.DedupIdempotent | Sources/Foundatee/Array+Extension.swift:41-44 | `unique` is idempotent. |
| ArrayExtension.Without | Sources/Foundatee/Array+Extension.swift:48-56 | `distinct(from:)` keeps exactly the elements not in `source`. |
| ArrayExtension.Distinct | Sources/Foundatee/Array+Extension.swift:48-56 | The loop appends exactly the elements not in `source`, in order. |
| ArrayExtension.WithoutCounts | Sources/Foundatee/Array+Extension.swift:48-56 | Each kept element keeps its multiplicity, so duplicates of `self` survive. Elements of `source` occur zero times. |
| ArrayExtension.InsertedUnique | Sources/Foundatee/Array+Extension.swift:69-73 | A present item leaves the array unchanged. An absent item is inserted at the index, with the rest shifted. |
| ArrayExtension.InsertedUniqueKeepsNoDuplicates | Sources/Foundatee/Array+Extension.swift:69-73 | `insertUnique(item:at:)` keeps a duplicate-free array duplicate-free. |
| ArrayExtension.DropPresent | Sources/Foundatee/Array+Extension.swift:76-78 | The kept part is a suffix of `objs`. Everything dropped is already in the array, and the first kept item is not. |
| ArrayExtension.InsertedUniqueItems | Sources/Foundatee/Array+Extension.swift:75-80 | The elements before and after `index` are kept in place around the inserted block. Every element comes from the array or from `objs`. When every item of `objs` is already present, the array is unchanged. |
| ArrayExtension.InsertedUniqueItemsMayDuplicate | Sources/Foundatee/Array+Extension.swift:75-80 | Only the leading run of present items is dropped. `[1]` with `[2, 1]` inserted at 1 gives `[1, 2, 1]`, which has a duplicate. |
| ArrayExtension.ArrayVar.constructor | Sources/Foundatee/Array+Extension.swift:59 | The variable holds the given elements. |
| ArrayExtension.ArrayVar.InsertUnique | Sources/Foundatee/Array+Extension.swift:69-73 | The array becomes the `insertUnique(item:at:)` result. |
| ArrayExtension.ArrayVar.AppendUnique | Sources/Foundatee/Array+Extension.swift:61-63 | The item is appended exactly when it is absent; otherwise the array is unchanged. |
| ArrayExtension.ArrayVar.InsertUniqueItems | Sources/Foundatee/Array+Extension.swift:75-80 | The remainder after the leading present run is inserted contiguously at the index. |
| ArrayExtension.ArrayVar.AppendUniqueItems | Sources/Foundatee/Array+Extension.swift:65-67 | The remainder after the leading present run is appended. |
| ArrayExtension.SafeIndex | Sources/Foundatee/Array+Extension.swift:89-91 | `subscript(safeIndex:)` gives the element exactly when 0 ≤ index < count, and nil otherwise. |
| ArrayExtension.ElementOrIsSafeIndex | Sources/Foundatee/Array+Extension.swift:85-91 | The defaulting subscript is the safe subscript with nil replaced by the default. |
| StringExtension.DotJoin | Sources/Foundatee/String+Extension.swift:6-8 | `left +/ right` is `left`, one dot, then `right`. |
| StringExtension.LastComponent | Sources/Foundatee/String+Extension.swift:99 | The last `.`-separated component is a dot-free suffix. A dot precedes it when it is not the whole string. |
| StringExtension.LastComponentOfDotJoin | Sources/Foundatee/String+Extension.swift:6-8 | The last component of `left +/ right` is `right` when `right` has no dot. |
| StringExtension.Trimming | Sources/Foundatee/String+Extension.swift:14 | Trimming gives the empty string exactly when the input is all whitespace; otherwise both ends are non-whitespace. |
| StringExtension.IsBlank | Sources/Foundatee/String+Extension.swift:13-16 | `isBlank` holds exactly when every character is whitespace. |
| StringExtension.TrimmingPadded | Sources/Foundatee/String+Extension.swift:132 | Whitespace added at either end does not change the trimmed string. |
| StringExtension.Lower | Sources/Foundatee/String+Extension.swift:132 | Lowercasing maps A–Z to a–z and leaves whitespace as whitespace. |
| StringExtension.Lowercased | Sources/Foundatee/String+Extension.swift:132 | `lowercased()` keeps the length, leaves no upper-case letter, and keeps every character that is not an upper-case letter. |
| StringExtension.BoolValuePadded | Sources/Foundatee/String+Extension.swift:131-140 | `boolValue` ignores surrounding whitespace. |
| StringExtension.BoolValueUpperYes | Sources/Foundatee/String+Extension.swift:131-134 | `"YES"` reads as true, because the input is lowercased. |
| StringExtension.BoolValueCapitalNo | Sources/Foundatee/String+Extension.swift:131-136 | `"No"` reads as false. |
| StringExtension.BoolValueOther | Sources/Foundatee/String+Extension.swift:137-138 | Any other token, such as `"on"`, reads as nil. |
| StringExtension.Token | Sources/Foundatee/String+Extension.swift:133-138 | A recognised token is one to five characters, none of them whitespace or an upper-case letter. |
| StringExtension.BoolValueOfToken | Sources/Foundatee/String+Extension.swift:131-140 | For every input whose lowercase form has no surrounding whitespace, `boolValue` is the token that lowercase form names: case never matters. |
| StringExtension.RemovingCharacters | Sources/Foundatee/String+Extension.swift:142-145 | The result contains no forbidden character and every allowed character of the input. |
| StringExtension.RemovingCharactersConcat | Sources/Foundatee/String+Extension.swift:142-145 | Filtering commutes with concatenation, so the order of the input is preserved. |
| StringExtension.RemovingCharactersCounts | Sources/Foundatee/String+Extension.swift:142-145 | An allowed character keeps its multiplicity; a forbidden one disappears. |
| StringExtension.RemovingCharactersIn | Sources/Foundatee/String+Extension.swift:147-149 | `removingCharacters(from: String)` drops exactly the characters of the given string. |
| StringExtension.DigitsOnly | Sources/Foundatee/String+Extension.swift:151-153 | `digitsOnly` keeps exactly the decimal digits. |
| StringExtension.DigitsOnlyOfDigits | Sources/Foundatee/String+Extension.swift:151-153 | A string made only of digits comes back from `digitsOnly` as it is. |
| StringExtension.DigitsOnlyUnchanged | Sources/Foundatee/String+Extension.swift:151-153 | `digitsOnly` returns its input unchanged exactly when the input is all digits. |
| StringExtension.Fits | Sources/Foundatee/String+Extension.swift:28-35 | `fits` holds exactly when every character is in the set, so it holds for the empty string. |
| StringExtension.IsDigitsOnly | Sources/Foundatee/String+Extension.swift:24-26 | `isDigitsOnly` holds exactly when every character is a decimal digit. |
| StringExtension.UnionSets | Sources/Foundatee/String+Extension.swift:163-169 | The union contains exactly the characters in some set of the list. |
| StringExtension.HasExtension | Sources/Foundatee/String+Extension.swift:97-101 | A string that counts as having an extension contains a dot and does not end in one. |
| StringExtension.ExtensionAdded | Sources/Foundatee/String+Extension.swift:96-107 | `addExtensionIfNeeded` never alters the existing text: the old string is a prefix of the new one, which is longer by at most a dot and the extension. |
| StringExtension.ExtensionAddedWithoutDot | Sources/Foundatee/String+Extension.swift:96-107 | A string with no dot becomes `self + "." + ext`. |
| StringExtension.ExtensionAddedAfterTrailingDot | Sources/Foundatee/String+Extension.swift:101-106 | A string ending in a dot becomes `self + ext`. |
| StringExtension.ExtensionAddedKeepsExtension | Sources/Foundatee/String+Extension.swift:98-101 | For a non-empty `ext`, the string is unchanged exactly when it has a dot and its last component is not blank. |
| StringExtension.ExtensionAddedChanged | Sources/Foundatee/String+Extension.swift:101-106 | Without an extension, the result is the string (its trailing dot removed) joined by a dot with `ext`. |
| StringExtension.ExtensionAddedOfDotJoin | Sources/Foundatee/String+Extension.swift:96-107 | `left +/ ext` already has the extension when `ext` is non-blank and has no dot. |
| StringExtension.ExtensionAddedIdempotent | Sources/Foundatee/String+Extension.swift:96-107 | With a non-blank, dot-free `ext`, a second `addExtensionIfNeeded` changes nothing. |
| StringExtension.Repeat | Sources/Foundatee/String+Extension.swift:123-125 | `n` appends of `trailing` add `n * |trailing|` characters. |
| StringExtension.ReachedLength | Sources/Foundatee/String+Extension.swift:111-129 | A longer string gives its first `length` characters. An equal one is returned as it is. A shorter one has `trailing` appended `length - count + 1` times, because the loop range is inclusive. |
| StringExtension.ReachedLengthOvershoots | Sources/Foundatee/String+Extension.swift:121-125 | A one-character `trailing` pads a short string to `length + 1`, one too many. |
| StringExtension.ReachedLengthExample | Sources/Foundatee/String+Extension.swift:121-125 | `"ab"` padded to 4 with `" "` gives `"ab   "`, five characters. |
| StringExtension.ReachedLengthIntended | Sources/Foundatee/String+Extension.swift:111-129 | The corrected padding appends `trailing` `length - count` times. |
| StringExtension.ReachedLengthIntendedExact | Sources/Foundatee/String+Extension.swift:109-110 | With a one-character `trailing`, the corrected result has exactly `length` characters and starts with the string. |
| StringExtension.StringVar.constructor | Sources/Foundatee/String+Extension.swift:10 | The variable holds the given string. |
| StringExtension.StringVar.AddExtensionIfNeeded | Sources/Foundatee/String+Extension.swift:96-107 | The string becomes the `addExtensionIfNeeded` result. |
| StringExtension.StringVar.ReachLength | Sources/Foundatee/String+Extension.swift:111-129 | The loop's result is `ReachedLength`. The string is left unmodified when longer than `length`, and is otherwise replaced by the result. |
| StringUtility.RecognisedIsShaped | Sources/Utility/StringUtility.swift:5-9 | A string is accepted exactly when its length is a positive multiple of 4 and it ends in `=`. Everything before the last two characters must be in the alphabet; the second-to-last is in the alphabet or is `=`. |
| StringUtility.AcceptedLength | Sources/Utility/StringUtility.swift:6 | Every accepted string has length ≡ 0 mod 4 and length ≥ 4, and ends in `=`. |
| StringUtility.PaddingOnlyAtEnd | Sources/Utility/StringUtility.swift:6 | `=` occurs only in the last two positions of an accepted string. |
| StringUtility.AcceptedCharacters | Sources/Utility/StringUtility.swift:6 | Accepted strings hold only alphabet characters and `=`, so never the URL-safe `-` or `_`. |
| StringUtility.EmptyRejected | Sources/Utility/StringUtility.swift:6 | The empty string is rejected. |
| StringUtility.UnpaddedRejected | Sources/Utility/StringUtility.swift:6 | A string of alphabet characters only, unpadded, is rejected. |
| StringUtility.Sextet | Sources/Utility/StringUtility.swift:6 | Every 6-bit value maps to an alphabet character. |
| StringUtility.Quantum | Sources/Utility/StringUtility.swift:6 | Three octets encode to a full group of four alphabet characters. |
| StringUtility.PairQuantum | Sources/Utility/StringUtility.swift:6 | Two final octets encode to a closing group with one `=`. |
| StringUtility.SingleQuantum | Sources/Utility/StringUtility.swift:6 | One final octet encodes to a closing group with `==`. |
| StringUtility.Encode | Sources/Utility/StringUtility.swift:6 | The encoding is empty exactly when the data is. |
| StringUtility.EncodeWholeQuanta | Sources/Utility/StringUtility.swift:6 | When the data length is a multiple of three, the encoding has no padding. |
| StringUtility.EncodeABC | Sources/Utility/StringUtility.swift:6 | The encoding of "ABC" is "QUJD". |
| StringUtility.WholeQuantaRejected | Sources/Utility/StringUtility.swift:6 | The check rejects the encoding of any data whose length is a multiple of three. |
| StringUtility.EncodedABCRejected | Sources/Utility/StringUtility.swift:6 | "QUJD", a valid encoding, is rejected. |
| StringUtility.RecognisedIsIntended | Sources/Utility/StringUtility.swift:6 | Everything the check accepts, the corrected check accepts. |
| StringUtility.EncodedIsIntended | Sources/Utility/StringUtility.swift:6 | The corrected check accepts every Base64 encoding. |
| OptionSets.Doubled | Sources/Foundatee/OptionSet+Iteration.swift:16 | `&* 2` moves each one bit up one position and loses bit 63. |
| OptionSets.DoubledBitAt | Sources/Foundatee/OptionSet+Iteration.swift:16 | Doubling the mask of bit p gives the mask of bit p + 1, or zero after bit 63. |
| OptionSets.ElementsFromSingleBits | Sources/Foundatee/OptionSet+Iteration.swift:17-19 | Every mask yielded from position p on is a single one bit of the value, at p or above. |
| OptionSets.ElementsFromIncreasing | Sources/Foundatee/OptionSet+Iteration.swift:14-19 | The masks are yielded in strictly increasing bit order. |
| OptionSets.ElementsFromCover | Sources/Foundatee/OptionSet+Iteration.swift:17-18 | Every one bit at p or above is yielded. |
| OptionSets.ElementsFromCount | Sources/Foundatee/OptionSet+Iteration.swift:17-18 | One mask is yielded per one bit at p or above. |
| OptionSets.ElementsAreTheBits | Sources/Foundatee/OptionSet+Iteration.swift:14-23 | Iteration yields single-bit masks of the raw value's one bits, lowest first. Each one bit is yielded once, and as many masks as one bits. |
| OptionSets.ElementsFromNone | Sources/Foundatee/OptionSet+Iteration.swift:15 | No bits left means nothing is yielded, so a zero raw value yields nothing. |
| OptionSets.ElementsFromAfterClearing | Sources/Foundatee/OptionSet+Iteration.swift:18 | Clearing an already-tested bit does not change what is yielded later. |
| OptionSets.OptionSetIterator.constructor | Sources/Foundatee/OptionSet+Iteration.swift:7-12 | The iterator starts with all the raw value's bits remaining and the mask 1. Everything is still to be yielded. |
| OptionSets.OptionSetIterator.Next | Sources/Foundatee/OptionSet+Iteration.swift:14-23 | `next()` yields the first pending element and removes it, or nil when none is left; the scan terminates. |
| OptionSets.MakeIterator | Sources/Foundatee/OptionSet+Iteration.swift:27-29 | A fresh iterator has all of the set's elements pending. |
| OptionSets.Count | Sources/Foundatee/OptionSet+Iteration.swift:33-35 | `count` equals the number of one bits of the raw value. |
| CommonScalar.LesserOf | Sources/Foundatee/Common+Scalar.swift:6-8 | `a <! b` is one of the operands and no greater than either. On a tie it is the right operand. |
| CommonScalar.GreaterOf | Sources/Foundatee/Common+Scalar.swift:10-12 | `a >! b` is one of the operands and no smaller than either. On a tie it is the right operand. |
| CommonScalar.LesserAndGreater | Sources/Foundatee/Common+Scalar.swift:6-12 | Operands that compare unequal are split between `<!` and `>!`. On a tie both operators return the right operand. |
| CommonScalar.LesserOfSwapped | Sources/Foundatee/Common+Scalar.swift:6-12 | Swapping the operands changes a result exactly on a tie between different values. |
| CommonScalar.Digits | Sources/Foundatee/Common+Scalar.swift:98 | The decimal text of a natural is a non-empty string of digits. |
| CommonScalar.DigitsBounds | Sources/Foundatee/Common+Scalar.swift:94 | A positive number with k digits lies in [10^(k-1), 10^k), the count that `floor(log10(n)) + 1` means. |
| CommonScalar.MoreDigitsThan | Sources/Foundatee/Common+Scalar.swift:94-95 | A number has more than k digits exactly when it is at least 10^k. |
| CommonScalar.LimitedString | Sources/Foundatee/Common+Scalar.swift:90-99 | `digits` outside 1…126, or a zero value, gives `String(self)`. Otherwise the result is `digits` nines and `+` exactly when \|self\| ≥ 10^digits, and `String(self)` below that. The result never exceeds `digits + 1` characters. |
| CommonScalar.LimitedStringExamples | Sources/Foundatee/Common+Scalar.swift:87-89 | 10 with one digit gives "9+", 100 with two gives "99+", 99 with two gives "99". `Int.min` with `digits` 0 gives its plain text. |
| CodableEnum.FirstMatch | Sources/CodableExtensions/CodableEnum.swift:42 | `first(where:)` finds the first case, in `allCases` order, with the raw value, or reports that none has it. |
| CodableEnum.UnknownCaseInit | Sources/CodableExtensions/CodableEnum.swift:41-44 | A matching raw value gives a listed case with that raw value. No match gives `unknownCase`. |
| CodableEnum.UnknownCaseInitFirst | Sources/CodableExtensions/CodableEnum.swift:42-43 | Among cases sharing a raw value, the first listed wins. |
| CodableEnum.DecodeEnum | Sources/CodableExtensions/CodableEnum.swift:11-20 | A raw-value read error propagates. Otherwise the result is `init(rawValue:)` when that succeeds, else `defaultDecoderValue`, else `dataCorrupted`. A failure is `dataCorrupted` exactly when the read succeeded and there is no default. |
| CodableEnum.UnknownRawValueThrows | Sources/CodableExtensions/CodableEnum.swift:9-18 | Without an override, a raw value that names no case throws `dataCorrupted`. |
| CodableEnum.UnknownCaseNeverCorrupted | Sources/CodableExtensions/CodableEnum.swift:11-20 | For an `UnknownCaseRepresentable` type, decoding fails exactly when the raw value cannot be read. |
| CodableEnum.EncodeThenDecode | Sources/CodableExtensions/CodableEnum.swift:11-29 | If the listed cases have distinct raw values, encoding then decoding gives the case back. |
| SafelyDecoding.Try | Sources/CodableExtensions/SafelyDecodable.swift:50 | `try?` gives the value of a success and nil for a failure. |
| SafelyDecoding.DecodeSafelyDecodable | Sources/CodableExtensions/SafelyDecodable.swift:10-12 | `SafelyDecodable.init` never throws; it keeps the element's outcome, failure included. |
| SafelyDecoding.Successes | Sources/CodableExtensions/SafelyDecodable.swift:26-29 | No more values are kept than there were elements. |
| SafelyDecoding.SuccessesAppend | Sources/CodableExtensions/SafelyDecodable.swift:26-29 | Keeping successes commutes with concatenation, so the input order is preserved. |
| SafelyDecoding.SuccessesAreTheSuccessfulValues | Sources/CodableExtensions/SafelyDecodable.swift:26-34 | The kept values are exactly the values of the successful elements. |
| SafelyDecoding.SuccessesOfAllSuccesses | Sources/CodableExtensions/SafelyDecodable.swift:26-29 | When every element decodes, all values are kept in order. |
| SafelyDecoding.LastFailureNone | Sources/CodableExtensions/SafelyDecodable.swift:20 | `error` stays nil exactly when every element decodes. |
| SafelyDecoding.LastFailureIsLast | Sources/CodableExtensions/SafelyDecodable.swift:30-31 | A recorded error is that of the last failed element. |
| SafelyDecoding.DecodeSafelyDecodableArray | Sources/CodableExtensions/SafelyDecodable.swift:24-36 | An unkeyed-container error propagates. Otherwise `wrappedValue` holds the successes in order and `error` the last failure. |
| SafelyDecoding.DecodeSafely | Sources/CodableExtensions/SafelyDecodable.swift:49-51 | `decodeSafely` gives the value on success and nil when the lookup or the value fails. |
| SafelyDecoding.DecodeSafelyIfPresent | Sources/CodableExtensions/SafelyDecodable.swift:53-55 | `decodeSafelyIfPresent` also gives nil when the key is absent. |
| SafelyDecoding.DecodeSafelyArray | Sources/CodableExtensions/SafelyDecodable.swift:64-67 | A failed array gives `[]`. Otherwise the result is at most as long as the array, and is all the values in order when all decode. |
| SafelyDecoding.DecodeSafelyArrayKeepsSuccesses | Sources/CodableExtensions/SafelyDecodable.swift:83-86 | The kept values are exactly those of the elements that decoded, in order. |
| SafelyDecoding.DecodeSafelyArrayIfPresent | Sources/CodableExtensions/SafelyDecodable.swift:73-75 | The result is nil when the key is absent or the array fails; otherwise it is the successes. |
| SafelyDecoding.WrapperAgreesWithHelper | Sources/CodableExtensions/SafelyDecodable.swift:24-36 | The property wrapper keeps the same values as `decodeSafelyArray`. Its `error` is nil exactly when nothing failed. |
| SafelyDecoding.WrapResultsInverse | Sources/CodableExtensions/SafelyDecodable.swift:6-13 | An array of `SafelyDecodable` is exactly its elements' outcomes: reading the outcomes and wrapping them again are inverse. |
| SafelyDecoding.DecodeArray | Sources/CodableExtensions/SafelyDecodable.swift:77-79 | A plain array decodes exactly when every element does, to all the values in order. |
| SafelyDecoding.ByKey | Sources/CodableExtensions/SafelyDecodable.swift:73-75 | Forwarded to the typed overload, the key-only lookup gives an array exactly when the key is present, never longer than the stored one. |
| SafelyDecoding.ByKeyAsWritten | Sources/CodableExtensions/SafelyDecodable.swift:77-79 | As written, the key-only lookup gives an array exactly when the key is present and every element decodes, and then all the values in order. |
| SafelyDecoding.ByKeyKeepsSuccesses | Sources/CodableExtensions/SafelyDecodable.swift:73-75 | Forwarding to the typed overload, a present array keeps its successes and an absent key gives nil. |
| SafelyDecoding.ByKeyAsWrittenDropsArray | Sources/CodableExtensions/SafelyDecodable.swift:77-79 | As written, the key-only overload agrees with the typed one exactly when no element fails. One failed element loses the whole array. |
| SafelyDecoding.ByKeyExample | Sources/CodableExtensions/SafelyDecodable.swift:77-79 | For `[1, <failure>]`, as written the result is nil; forwarded, it is `[1]`. |
| CodableHelpers.FirstPresent | Sources/CodableExtensions/Codable+Extensions.swift:8-15 | The result is nil exactly when every key is absent or null, the empty key list included. Otherwise it is the outcome, value or error, of the first key that is not absent or null. |
| CodableHelpers.FirstPresentIsFirst | Sources/CodableExtensions/Codable+Extensions.swift:9-12 | The first key with a value or an error decides the result, whatever later keys hold. |
| CodableHelpers.NoKeys | Sources/CodableExtensions/Codable+Extensions.swift:14 | No key variations give nil. |
| CodableHelpers.DecodeIfPresent | Sources/CodableExtensions/Codable+Extensions.swift:8-15 | The loop returns `FirstPresent`. It looks up keys only until the first value or error, and all keys only when the result is nil. |

## Left out

- Locking wrappers (`Atomic`, `QueueSafe`, `UnfairLocked`) are not modelled: their purpose is thread synchronisation. `DispatchTimer.tolerance` is a plain field.
- GCD and Combine plumbing is not modelled: `Dispatch+Extension.swift`, `Signal.swift`, `FolderWatchdog.swift`, `DispatchTimer`'s scheduling deadlines and its `eventSubject`/`eventPublisher`. The dispatch source is a trace of calls.
- `CacheWrapper.swift` is left out: `NSCache` eviction is not visible.
- `Loopable.swift` is left out: it relies on runtime reflection.
- `CodableExtensions.swift` is left out: it is pure delegation to coder containers.
- The floating-point helpers `roundTo`, `shortString`, `shortStringRepresentation` and `Double.random` are left out.
- Randomness is left out: `randomAlphaNumericString`, `randomString`, `randomPick`, `any`.
- Unicode behaviour is out of scope:
  - `naturalLanguageString` (upper-casing, capitalisation) and `isWordsOnly` (`.letters`) are not modelled;
  - whitespace, lowercasing and the decimal digits are their ASCII subsets;
  - `CharacterSet` is a predicate on characters.
- The string subscripts `subscript(i:)` and `subscript(r:)` are not modelled. The range one computes its end from the range width rather than its upper bound.
- Also not modelled: `length` and `utf8Representation`, and the platform, I/O and unsafe-pointer files.
- Observer re-entrancy is not modelled: an observer that subscribes or disposes during a broadcast. Concurrent `dispose` is also out.
- The failed-element skip `_ = try? container.decode(_None.self)` is not modelled, nor JSONDecoder's index advancement on a failed element: the model consumes each element exactly once.
- `CommonScalar.LimitedString`: counts decimal digits exactly. The source counts them with `Float` `log10`, which can miscount near powers of ten from 10^7 up (9,999,999 is counted as 8 digits, because its `log10` rounds to 7.0 as a `Float`), and for \|self\| ≥ 2^24.
- `CommonScalar.LimitedString`: requires `self != Int.min` when `digits` is in 1…126 and `self` is non-zero, because only then is `abs` reached, and `abs(Int.min)` traps.
- `ArrayExtension.Int8String`: requires non-negative items, because `UInt8(value)` traps on a negative `Int8`.
- `ArrayExtension.InsertedUnique`: requires an in-range index when the item is absent, where `insert(_:at:)` traps otherwise. The same holds for `ArrayExtension.ArrayVar.InsertUniqueItems`.
- `StringExtension.StringVar.ReachLength`: requires `length >= 0`. A negative length makes the source's `index(_:offsetBy:)` trap.
- `StringExtension.Fits`: scans characters rather than UTF-8 bytes, which is the same over ASCII.
- `LinkedLists.LinkedList.Remove`: requires the node to be in this list or already detached. A node of another list is outside the model.
- `LinkedLists.Node.constructor`: the node's `value` is fixed. The source allows reassigning it, which no core operation does.
- `Observation.Disposable.Dispose`: requires the live registry to be well formed and to hold the node whenever the closure is still set.
- `Timers.DispatchTimer.Fire`: requires the source to exist and the timer to be resumed, since only a resumed source fires. The event publisher is not modelled.
- `OptionSets.OptionSetIterator.Next`: bit patterns are sets of bit positions, not `Int` values. The `lazy` read of the raw value happens at construction.
- `CodableHelpers.DecodeIfPresent`: also returns how many keys were looked up, so that the contract can state that no key after the first hit is consulted.

## Findings

| source | as written | input that shows it | evidently intended | confidence | as-written member | corrected member |
|---|---|---|---|---|---|---|
| Sources/Utility/StringUtility.swift:6 | The pattern requires a final padded group. Unpadded Base64 and the empty string are rejected. | "QUJD", the encoding of "ABC" (any data whose length is a multiple of 3) | Accept every Base64 encoding: the final group may be unpadded, and the empty string is allowed | high, not executed | StringUtility.WholeQuantaRejected | StringUtility.EncodedIsIntended |
| Sources/Foundatee/String+Extension.swift:123 | `for _ in 0 ... count` appends `trailing` `count + 1` times | `"ab".reachLength(4)` gives `"ab   "` (5 characters) | Pad to exactly `length`: append `count` times | high, not executed | StringExtension.ReachedLengthOvershoots | StringExtension.ReachedLengthIntendedExact |
| Sources/CodableExtensions/SafelyDecodable.swift:77-79 | The key-only `decodeSafelyArrayIfPresent(_:)` forwards to `decodeSafelyIfPresent`. That decodes the array as one value, so a single bad element makes the result nil. | key holding `[1, <undecodable>]` | Forward to `decodeSafelyArrayIfPresent(_:forKey:)`, giving `[1]`, as the other key-only overloads forward to their typed versions | medium, not executed | SafelyDecoding.ByKeyAsWrittenDropsArray | SafelyDecoding.ByKeyKeepsSuccesses |
