# lilufo core in Dafny

This project models the two parts of `lilufo` that make decisions. `lilufo` is a command-line tool for UFO font sources.

- **Outline normalisation** (`src/basic.rs`):
  - Every `point` element of a glyph's XML outline has its `x` and `y` attributes rounded to the nearest even integer. The rounding is `round(v / 2) * 2`, with ties going away from zero, and the result is printed back as an integer, the way Rust prints an integral `f64`.
  - The outline is then checked so that every point is even again.
- **Kerning groups and pairs** (`src/kerning.rs`):
  - Adding a kerning group to a loaded font, and editing one. Each operation validates the side and the names, stores the group under the key `public.kern1.<name>` (left) or `public.kern2.<name>` (right), then saves the font.
  - The two read-only listings, of `groups.plist` and of `kerning.plist`.

Modules:

- `Wrappers` (`wrappers.dfy`): `Option`, `Result`, and `Outcome` (pass, or fail with an error).
- `Numbers` (`numbers.dfy`):
  - `ParseFloat` is Rust's `str::parse::<f64>`, over exact reals. The sign is kept, so `-0` is visible. `inf`, `infinity` and `nan` are accepted in any letter case.
  - `RoundToEven` is `round_to_even`, which maps a coordinate's text to the text written back.
  - `IsEvenAsWritten` is `is_even` as written; `IsEven` is the corrected test.
- `Outline` (`outline.dfy`):
  - The XML tree as values (`Element`), with the specification functions `RoundedElement` (what `round_element_points` does to a tree) and `Everywhere`.
  - The class `XmlElement`, which is the mutable `xmltree::Element`. Its constructor builds an element from a name, attributes and already-built children, the way a parsed tree arrives. Its `RoundPoints` method updates attributes in place, walking the children the way `round_element_points` does. It is proved against `RoundedElement`.
  - `VerifyEvenPoints` is `verify_even_points`, proved against `Everywhere(·, PointEven(test))`. The evenness test is a parameter:
    - `AsWritten` is the code's `is_even`;
    - `Intended` is the corrected test described under Findings.
- `Plist` (`plist.dfy`): the property-list `Value`, and the key order of a `BTreeMap<String, Value>`.
- `Kerning` (`kerning.dfy`):
  - The class `Font`, holding the groups dictionary and a save counter, with `AddKerningGroup` and `EditKerningGroup`.
  - The listings as functions over the plist entries in key order:
    - `GroupLines` gives one side of `display_kerning_groups`, and `DisplayKerningGroups` gives both;
    - `KerningLines` is `display_kerning`, with `PairLines` for one first key, and `FirstName` and `SecondName` for the displayed names.

The command wrappers expect more of the kerning code than `src/kerning.rs` provides. This model follows `src/kerning.rs`:

- `src/commands/edit_kerning_group.rs:6` passes an `append` flag. The `edit_kerning_group` defined at `src/kerning.rs:169-174` takes no such flag and always replaces the member list.
- `src/commands/add_kerning_pair.rs:6` calls `crate::kerning::add_kerning_pair`. `src/kerning.rs` defines no such function, so there is no pair-adding operation to model.
- Both operations insert the member list exactly as given, with no sorting and no deduplication.
- Errors are checked in the code's order:
  - In `add_kerning_group`: side, then members, then the full group name.
  - In `edit_kerning_group`: side, then the full group name, then existence, then members.

## Model

| member | source | states |
|---|---|---|
| Numbers.RoundToEvenFinite | src/basic.rs:69-73 | a value that parses finite is written back as text that parses to a finite even integer at most 1 away from the value |
| Numbers.RoundToEvenUnparsable | src/basic.rs:70 | text that does not parse as a number is written back as "0", which counts as even |
| Numbers.RoundToEvenNonFinite | src/basic.rs:69-73 | an infinite or NaN value is written back as text that is again infinite or NaN, and is never even |
| Numbers.RoundToEvenIsEven | src/basic.rs:95-97 | every finite or unparsable value is written back as text that the corrected evenness test accepts |
| Numbers.RoundToEvenIdempotent | src/basic.rs:69-73 | rounding the written-back text again changes nothing, so a second normalisation pass leaves every coordinate as it is |
| Numbers.RoundToEvenOfInteger | src/basic.rs:69-73 | an integer coordinate is kept when even; an odd one moves one step away from zero |
| Numbers.EvenRoundClose | src/basic.rs:71 | `round(v / 2) * 2` is even and lies within 1 of `v` |
| Numbers.EvenRoundInteger | src/basic.rs:71 | on an integer, `round(v / 2) * 2` keeps even values and moves odd ones away from zero (ties round away from zero) |
| Numbers.ParseIntToString | src/basic.rs:72 | the decimal text printed for an integer parses back to that integer, with its sign |
| Numbers.ParseMinusZero | src/basic.rs:72 | the "-0" printed for a negative value that rounds to zero parses back as a negative zero |
| Numbers.ParseNaN | src/basic.rs:72 | the "NaN" printed for NaN parses back as NaN |
| Numbers.ParseInf | src/basic.rs:72 | the "inf" and "-inf" printed for infinities parse back as the same infinities |
| Numbers.NatToStringValue | src/basic.rs:72 | the decimal digits printed for a natural number denote that number |
| Numbers.IsEvenAsWrittenRejectsHugeEven | src/basic.rs:96 | an even integer above the `i64` range keeps its value through rounding and is even, yet the as-written test rejects it because the cast saturates |
| Numbers.RoundToEvenFitsAsWritten | src/basic.rs:95-97 | an unparsable coordinate, or a finite one inside the `i64` range, is written back as text that both the as-written and the intended test accept |
| Outline.RoundedAttributes | src/basic.rs:53-60 | the key set is unchanged; `x` and `y` of a `point` element are replaced by their rounded text; every other attribute, and every attribute of any other element, keeps its value |
| Outline.RoundedElementSameShape | src/basic.rs:52-67 | rounding keeps every element name, the number and kind of children, and every non-element node |
| Outline.RoundedPointsEven | src/basic.rs:52-67 | after rounding, every point in the tree has even coordinates under the test, provided every coordinate was fit for it. For the intended test that means no infinity or NaN; for the as-written test, also inside the `i64` range |
| Outline.RoundedPointEven | src/basic.rs:53-60 | after rounding, one element whose coordinates are fit for the test has even coordinates under it |
| Outline.RoundedCoordinateEven | src/basic.rs:69-73 | one coordinate fit for the test is written back as text that passes that test |
| Outline.NonFinitePointFails | src/basic.rs:75-93 | a point whose `x` is infinite or NaN still fails the evenness check after rounding, under either test |
| Outline.HugePointFailsAsWritten | src/basic.rs:75-93 | a point at an even `x` above the `i64` range passes the intended check after rounding, while the check as written reports the tree as not even |
| Outline.RoundedAttributesIdempotent | src/basic.rs:53-60 | rounding the attributes twice is the same as rounding them once |
| Outline.RoundedElementIdempotent | src/basic.rs:52-67 | rounding a whole tree twice is the same as rounding it once |
| Outline.EverywhereUnfold | src/basic.rs:75-93 | a property holds in every element exactly when it holds at the root and everywhere in each element child |
| Outline.XmlElement.constructor | src/basic.rs:32 | a built element is valid, holds the given name, attributes and children, and its value is that name and those attributes over the values of the children |
| Outline.NormaliseSampleGlyph | src/basic.rs:32-42 | one glyph with a single point at x "3", y "-4" is normalised in place to x "4", y "-4", and the pass reports every point even under the code's test |
| Outline.XmlElement.RoundCoordinates | src/basic.rs:53-60 | the element's attributes become the rounded attributes of the old ones, and nothing else changes |
| Outline.XmlElement.RoundPoints | src/basic.rs:52-67 | the tree's new value is the rounded value of its old one, updated in place through the children |
| Outline.XmlElement.VerifyEvenPoints | src/basic.rs:75-93 | the answer is true exactly when every point in the tree that has both coordinates has both even under the given test (the code's test is `AsWritten`) |
| Outline.XmlElement.NormaliseOutline | src/basic.rs:34-42 | one glyph's pass: the tree is rounded in place, and the verdict says whether all points are even under the test. It is true whenever every coordinate was fit for the test. With the code's `AsWritten` test, that means every coordinate is unparsable, or finite and inside the `i64` range |
| Kerning.GroupKey | src/kerning.rs:151-152 | a key exists exactly for side "left" or "right"; it carries that side's namespace and not the other's; stripping the namespace gives back the group name; the key is a valid name exactly when the group name has no control character |
| Kerning.ValidateNames | src/kerning.rs:155-158 | succeeds with the members unchanged exactly when all are valid names; otherwise it fails with the first invalid member |
| Kerning.Font.constructor | src/kerning.rs:140 | a loaded font holds the given groups and has not been saved |
| Kerning.Font.AddKerningGroup | src/kerning.rs:134-167 | the error comes from the first failing check (side, then members, then full name); on success the group is inserted or replaced under its full key and the font is saved once; on failure nothing changes and nothing is saved |
| Kerning.Font.EditKerningGroup | src/kerning.rs:169-205 | the error comes from the first failing check (side, full name, existence with "not found", members); on success only the existing group's members are replaced and the font is saved once; on failure nothing changes and nothing is saved |
| Kerning.StringMembers | src/kerning.rs:57-66 | a member is listed exactly when it is a string item of the array, and there are no more members than items |
| Kerning.StringMembersAppend | src/kerning.rs:57-66 | the listing of a concatenation is the listings of its parts, one after the other, so order and repeats are kept |
| Kerning.StringMembersSingle | src/kerning.rs:59-65 | a single string item is listed as itself; any other item is dropped |
| Kerning.StringMembersOfStrings | src/kerning.rs:57-66 | an array of glyph names is listed as exactly those names, in their order |
| Kerning.GroupLinesSound | src/kerning.rs:53-91 | every listed group comes from an array entry whose key is the side's namespace followed by the listed name, with the listed members |
| Kerning.GroupLinesComplete | src/kerning.rs:53-91 | every array entry whose key carries the namespace is listed under its stripped name |
| Kerning.GroupLinesAscending | src/kerning.rs:46 | because the map's keys ascend, each listing's names strictly ascend, so there are no duplicates |
| Kerning.SavedGroupListed | src/kerning.rs:38-94 | a group held under its side's key, once saved, is listed by name with its members on that side. Every line on the other side shows a group of the font, with that group's members |
| Kerning.SavedLinesHeld | src/kerning.rs:53-91 | every group listed from a saved groups file is a group of the font under namespace plus name, with its members |
| Kerning.DisplayNames | src/kerning.rs:111-122 | a first-side group key shows as `@name` in first position and verbatim in second; a second-side key shows as `@name` in second position and verbatim in first |
| Kerning.PairLinesExact | src/kerning.rs:117-127 | a line is listed for a first key exactly when its dictionary holds an integer under a key whose display name is the line's second name |
| Kerning.KerningLinesExact | src/kerning.rs:96-132 | a line is listed exactly when some dictionary entry of the file holds an integer for it, under the displayed first and second names |

## Left out

- File and console I/O are parameters or are absent, because they are effects outside the logic:
  - globbing the glyph files;
  - reading and writing files;
  - XML and plist parsing and serialisation;
  - the `println!` reports, including their text layout. The listings are modelled as structured lines.
- `display_basic_info` and the command-line surface in `src/main.rs` are not part of this model, because they only print or dispatch.
- `Font::load` is absent. Failures of `Font::save` are absent too, because save is modelled as a counter of successful saves.
- A missing `groups.plist` or `kerning.plist` is absent, because the listing is then just a printed message.
- Numbers.RoundToEven: the model computes on exact reals, not on `f64`. Values that `f64` cannot represent exactly therefore differ from the code: integers above 2^53, and inputs with 16 or more significant digits. For example, the code reads "9007199254740993" as 2^53 and writes "9007199254740992", while the model writes "9007199254740994". The code also reads huge values as infinity. This changes the as-written verdict: for `x="-1e400"` the code writes "-inf", which `is_even` rejects, while the model writes a 401-digit integer, which `Numbers.IsEvenAsWritten` accepts because the saturating cast lands on the even `i64::MIN`; so `Outline.XmlElement.VerifyEvenPoints(AsWritten)` passes a tree the code warns about.
- Numbers.RoundToEven: the model prints every digit of the rounded integer. Rust prints the shortest digits that read back as the same `f64`, padded with zeros. So above about 10^17 the text can differ while the value is the same. For example, 2^63 is printed by the code as "9223372036854776000".
- Kerning.ValidName: the model takes the font library's name rule to be that a name is non-empty and has no control characters. That library's code is not part of this model.
- Outline.XmlElement: the element name and the child list are constants, because `round_element_points` never changes them. Only the attributes are mutable.
- Append mode for editing a group, and adding a kerning pair, are left out: the command wrappers refer to them, but `src/kerning.rs` does not define them.
- The order of listed kerning pairs within one first key follows the file order. The model does not prove that order.

## Findings

| source | as written | input that shows it | evidently intended | confidence | as-written member | corrected member |
|---|---|---|---|---|---|---|
| src/basic.rs:96 | `v as i64 % 2 == 0`: the cast saturates at `i64::MAX`, which is odd, for any value at or above 2^63 | "9223372036854775808" (2^63). Rounding keeps the value (the code prints it as "9223372036854776000"), yet `is_even` reports it as not even, so the pass prints a warning | an integral value is even when its integer value is even | not executed | Numbers.IsEvenAsWrittenRejectsHugeEven | Numbers.RoundToEvenIsEven |
