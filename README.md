# FormComponent / FormBuilder in Dafny

This project models the logic of a React form library and its schema builder.
It models the code, not the JSX.

The library exists in three revisions:
- `src/form`, the oldest;
- `src/components`;
- `src/form-custom`.

Every revision turns a schema array (`formData`) into these pieces:
- a list of supported fields, a list of buttons and a list of unsupported entries;
- a value map keyed by field name;
- change, reset and submit handlers that update that map and set validity messages on the inputs.

Masked text inputs show a value shaped by a `#` template and hand the parent the raw characters.
The builder (`src/form-builder`) edits a list of draft schema entries. It submits them as a schema with a submit button and a reset button appended.

## Modules

There is one module per source file. Every module imports the shared `Js` module.
- **`Js`** (`js.dfy`): the JavaScript values involved. These are `undefined`, `null`, booleans, integers, strings, file lists, arrays and opaque object references. The module also holds truthiness, the property key a computed `[name]` writes, the 32-bit `ToInt32` conversion, and `split`, `join`, `lastIndexOf`, `slice` and `splice(i, 1)`.
- **`MaskCodec`** (`mask_codec.dfy`): `maskValue` and `unMaskValue` from `src/form-custom/input/input.utils.js`. Each is a loop, proved against a specification function, with the lemmas about its shape and round trip.
- **`MaskedInput`** (`masked_input.dfy`): the `MaskedInput` component. It covers the second copy of the codec, the unmask-and-forward handler, `shouldComponentUpdate` and the render guard.
- **`FormUtils`** (`form_utils.dfy`): `calculateFieldsArrays`, `createInitialState`, `shallowCompareFormData` and `stringifyAndHash`. It also holds the `fieldsRefs` table the two later forms build.
- **`ClassicForm`** (`form_classic.dfy`): the `Form` of `src/form`.
- **`ComponentsForm`** (`form_components.dfy`): the `Form` of `src/components`.
- **`CustomForm`** (`form_custom.dfy`): the `Form` of `src/form-custom`.
- **`InputField`** (`input_field.dfy`): the `Input` of `src/components/input`.
- **`InputFile`** (`input_file.dfy`): the custom file input of `src/form-custom`.
- **`InputCheckboxes`** (`input_checkboxes.dfy`): the checkbox group.
- **`Drafts`** (`drafts.dfy`): the builder's draft values and its two heap-allocated element kinds. These are the `{name, value}` attribute objects and the `{label, required}` checkbox options.
- **`Builder`** (`form_builder.dfy`): the `FormBuilder`, including `spreadAdditionalAttribs`, `usedNames` and `setNumeration`.
- **`FieldEditor`** (`field_builder.dfy`): `FieldBuilder.handleChange`.
- **`AttribsEditor`** (`fb_additional_html.dfy`): the attribute-list editor.
- **`OptionsEditor`** (`fb_options.dfy`): the option-list editor.

### Conventions

**State and effects.**
- Stateful components are classes with the component's state as fields.
- Each handler is one atomic method.
- A DOM effect becomes part of the new state or a returned value:
  - a `setCustomValidity` call becomes a validity map or field;
  - the file inputs a reset clears become a returned set of field names;
  - the event handed to `onChange` becomes a returned event.

**Builder objects.**
- The builder's editors copy arrays shallowly and then assign fields of the shared element objects. Those elements are therefore class instances.
- Their contracts name every list position that holds the mutated object.

**Values and parameters.**
- Integers are unbounded `int`. The hash loop's 32-bit wrap-around is written out with `ToInt32`.
- A UTF-16 code unit is a `CodeUnit` newtype below 0x10000.
- The supported input types and the button types come from `form.types`, a module that is not part of this model. They are the parameters `supported` and `buttons`.

**Assumed copies.**
- `src/form/form.utils.js` repeats the first three helpers of `src/components/form/form.utils.js`, so both are modelled by `FormUtils`.
- Two files are not part of this model and are taken to be the same as the copies that are modelled:
  - `src/form-custom/form/form.utils.js`, taken to be equal to `src/components/form/form.utils.js`;
  - the `input.utils` next to `src/components/input`, taken to be equal to `src/form-custom/input/input.utils.js`.

## Model

| member | source | states |
|---|---|---|
| MaskCodec.MaskValue | src/form-custom/input/input.utils.js:1-19 | The `#`-template walk returns exactly the masked string defined by the template walk, with an empty mask or empty value returned unchanged |
| MaskCodec.UnMaskValue | src/form-custom/input/input.utils.js:21-33 | The loop keeps exactly the characters that differ from the template character at the same index, with an empty mask or input returned unchanged |
| MaskCodec.MaskedShape | src/form-custom/input/input.utils.js:2-16 | An empty mask or value is returned as is; otherwise the result is no longer than the template, carries the template character at every non-`#` position, and its `#` slots hold the first min(\|value\|, slots) characters of the value |
| MaskCodec.MaskedStopsAfterLastChar | src/form-custom/input/input.utils.js:8-18 | Trailing literals are not emitted once the value runs out: "12" under "##-" is "12" |
| MaskCodec.MaskedPhone | src/example/form.data.js:59 | "3334445555" under "+39 ### ### ####" is "+39 333 444 5555" |
| MaskCodec.UnmaskedShape | src/form-custom/input/input.utils.js:22-30 | An empty mask or input is returned unchanged; the result is a subsequence of the input; a prefix of the template unmasks to ""; when no character matches its template position the input comes back whole |
| MaskCodec.RoundTripTruncates | src/form-custom/input/input.utils.js:1-33 | Unmasking a masked value without `#` gives back the value cut to the number of slots |
| MaskCodec.RoundTrip | src/form-custom/input/input.utils.js:1-33 | Unmasking a masked value gives back the value when it has no `#` and fits the slots |
| MaskCodec.TypeAtEnd | src/form-custom/input/input.utils.js:26-30 | Typing one character after a shown masked value keeps every earlier raw character and appends the new one unless it equals the template character at that position |
| MaskCodec.FirstKeystrokeDropped | src/form-custom/input/input.utils.js:26-30 | A first keystroke equal to the template's first character is dropped |
| MaskCodec.UnmaskedTemplateText | src/form-custom/input/input.utils.js:26-30 | "+39 #" under "+39 ###" unmasks to "": a typed character equal to the template at its position is lost |
| MaskCodec.UnmaskedPhone | src/example/form.data.js:59 | "+39 333 444 5555" under the phone mask unmasks to "3334445555" |
| MaskedInput.MaskValue | src/masked-input/masked-input.component.jsx:63-82 | This copy guards on the mask only and returns the same template walk as the other copy |
| MaskedInput.UnMaskValue | src/masked-input/masked-input.component.jsx:84-96 | Keeps exactly the characters that differ from the template at the same index |
| MaskedInput.HandleChange | src/masked-input/masked-input.component.jsx:24-35 | The event forwarded to `onChange` carries the unmasked text and is otherwise the original event |
| MaskedInput.ShouldComponentUpdate | src/masked-input/masked-input.component.jsx:4-22 | Answers true iff label, errMsg, mask, value or onChange differ, or some key of the new htmlProps is missing from or differs in the old ones |
| MaskedInput.RemovedAttributeIgnored | src/masked-input/masked-input.component.jsx:11-19 | Removing an htmlProps key with everything else equal does not cause an update |
| MaskedInput.AddedAttributeNoticed | src/masked-input/masked-input.component.jsx:11-19 | Adding or changing an htmlProps key causes an update |
| MaskedInput.Displayed | src/masked-input/masked-input.component.jsx:43-51 | Something is rendered iff the type is 'text' or 'tel'; without a mask the raw value is shown, with one the shown value is no longer than the mask |
| MaskedInput.DisplayThenForward | src/masked-input/masked-input.component.jsx:24-51 | Unmasking what is displayed gives back the stored raw value when it has no `#` and fits the slots |
| FormUtils.CalculateFieldsArrays | src/components/form/form.utils.js:8-31 | fields are the entries of a supported type, btns those of a button type that is not supported, unsupported those in neither set, each in schema order |
| FormUtils.ThreeWayPartition | src/components/form/form.utils.js:18-27 | Every entry lands in exactly one list: the lengths and multisets add up to the schema's and each list's members are characterised by the two type tests |
| FormUtils.WithTypeInMembers | src/form/form.utils.js:18-27 | An entry is in a filtered list iff it is in the schema and passes the type test |
| FormUtils.FiltersKeepOrder | src/form/form.utils.js:8-31 | Filtering distributes over concatenation, so each list keeps schema order |
| FormUtils.FilterSplits | src/form/form.utils.js:8-31 | The entries passing and failing a type test have lengths and multisets adding up to the schema's |
| FormUtils.FilterCompose | src/components/form/form.utils.js:18-27 | Testing supported first and buttons second selects exactly the button types outside the supported set |
| FormUtils.CreateInitialState | src/components/form/form.utils.js:39-46 | The reduce loop builds the initial state entry by entry, a select at `options[0]` and every other named entry at '' |
| FormUtils.InitialStateKeys | src/form/form.utils.js:39-46 | A key is present iff some entry has that truthy name, and it holds the initial value of the last such entry |
| FormUtils.InitialStateExample | src/components/form/form.utils.js:41-43 | A nameless entry is skipped and a later select with the same name overwrites an earlier one with its first option |
| FormUtils.BuildFieldsRefs | src/form-custom/form/form.component.jsx:45-51 | The refs loop records, under each field's name, that field's type |
| FormUtils.RefTypesCover | src/components/form/form.component.jsx:45-51 | Every field has a refs entry under its name |
| FormUtils.RefTypesFromFields | src/components/form/form.component.jsx:45-51 | Every refs entry comes from some field |
| FormUtils.RefTypesLastWins | src/form-custom/form/form.component.jsx:46-51 | The entry for a name records the type of the last field with that name |
| FormUtils.ShallowCompareFormData | src/components/form/form.utils.js:57-86 | The nested loops answer false for the same array, true for different lengths, and otherwise true iff some entry's `length` differs or one of its new keys is falsy or different in the old entry |
| FormUtils.DeletedKeyUndetected | src/form/form.utils.js:62-76 | A key deleted from the new entry is never noticed |
| FormUtils.FalsyValueAlwaysChanged | src/components/form/form.utils.js:67-79 | A key whose old value is falsy reports a change even when nothing changed |
| FormUtils.SameReferenceUnchanged | src/form/form.utils.js:54-57 | The same array reference is never reported as changed |
| FormUtils.LengthChangeNoticed | src/components/form/form.utils.js:59-62 | Two arrays of different lengths are always reported as changed |
| FormUtils.JavaHash | src/components/form/form.utils.js:99-106 | The hash of every prefix lies in the signed 32-bit range |
| FormUtils.StepIsTimes31 | src/components/form/form.utils.js:101-105 | `(hash << 5) - hash + c` followed by `hash & hash` equals int32(31 * hash + c) |
| FormUtils.StringifyAndHash | src/components/form/form.utils.js:94-107 | The loop computes Java's String.hashCode recurrence, 0 for the empty string, always a signed 32-bit integer |
| FormUtils.HashIsPolynomial | src/components/form/form.utils.js:99-106 | The hash is the base-31 polynomial of the code units reduced to 32 bits |
| FormUtils.HashCollision | src/components/form/form.utils.js:88-107 | The hash is not unique: "Aa" and "BB" both hash to 2112 |
| ClassicForm.LegacyInitialStateIsFiltered | src/form/form.component.jsx:141-148 | The local createInitialState equals the shared one applied to the supported entries only |
| ClassicForm.LegacyInitialStateKeys | src/form/form.component.jsx:141-148 | A key is present iff some supported entry has that truthy name; buttons and unsupported entries add none |
| ClassicForm.ButtonFilterOverlap | src/form/form.component.jsx:16-29 | The three filters are independent: a type in both sets is both a field and a button, and with disjoint sets the button filter equals the shared partition's |
| ClassicForm.Changed | src/form/form.component.jsx:33-48 | The changed name gets the files when the event has them and the value otherwise, and no other key changes; validity changes only for confirmPassword and only when a `fieldRef` was passed, to "Passwords don't match" iff the value differs from the stored password and to "" otherwise, keeping every other field's message |
| ClassicForm.StaleConfirmation | src/form/form.component.jsx:41-47 | For a caller that passes the ref, changing the password after a matching confirmation leaves the confirmation marked valid |
| ClassicForm.Form.constructor | src/form/form.component.jsx:9-30 | The state is the local initial state and the three lists are the three filters |
| ClassicForm.Form.HandleChange | src/form/form.component.jsx:33-48 | State and validity become the `Changed` session; the handler throws iff confirmPassword changes without a `fieldRef`, after the state write |
| ClassicForm.ConfirmationWithoutRef | src/form/form.component.jsx:33-45 | Called with the event alone, as the form's inputs call it, a confirmPassword change stores the value and sets no message, even when it differs from the password |
| ClassicForm.Form.HandleReset | src/form/form.component.jsx:51-54 | The initial state of the whole schema is merged into the state: its keys are reset, keys it lacks keep their values |
| ClassicForm.Form.Submit | src/form/form.component.jsx:101 | The parent receives the whole state and nothing is reset |
| ClassicForm.ButtonOnClick | src/form/form.component.jsx:78 | A button gets its onClick only when its type is 'button', otherwise null |
| ComponentsForm.Extension | src/components/form/form.component.jsx:90-91 | The extension is the suffix from the last dot, or the last character when there is no dot |
| ComponentsForm.FileMessage | src/components/form/form.component.jsx:86-104 | A non-empty file path is refused iff its extension is not an exact token of `accept.split(', ')`; otherwise the message is cleared |
| ComponentsForm.ExtensionOfSuffix | src/components/form/form.component.jsx:90-91 | A name ending in a dot-extension has exactly that extension |
| ComponentsForm.ExampleAcceptTokens | src/components/form/form.component.jsx:95 | ".pdf, .doc" splits into ".pdf" and ".doc" |
| ComponentsForm.PdfAccepted | src/components/form/form.component.jsx:95-98 | Any ".pdf" file passes ".pdf, .doc" |
| ComponentsForm.OtherExtensionsRefused | src/components/form/form.component.jsx:95-102 | ".png", and ".PDF" because the match is case-sensitive, are refused by ".pdf, .doc" |
| ComponentsForm.Changed | src/components/form/form.component.jsx:58-105 | Only the changed name's entries change: a file event stores its files, a checkbox negates the stored value, anything else stores its value; a file event with an accept list gets the extension check's message, a confirmPassword change gets "Passwords don't match" iff it differs from the password, and other events leave validity alone |
| ComponentsForm.CheckboxToggles | src/components/form/form.component.jsx:67-68 | A checkbox event toggles the stored value whatever it carries: '' becomes true, then false |
| ComponentsForm.ConfirmPasswordOneWay | src/components/form/form.component.jsx:74-82 | confirmPassword is flagged iff it differs from the password, and a later password change does not clear the flag |
| ComponentsForm.EmptyFileValid | src/components/form/form.component.jsx:86-88 | An empty file value is always valid |
| ComponentsForm.ElementMessage | src/components/form/form.component.jsx:58-105 | The element's final message: none when Input throws on a group; otherwise the Form's confirmPassword or file message when it writes one, else Input's `equalTo` check with the entry's own `equalTo` and `errMsg`, and none iff `equalTo` is null |
| ComponentsForm.InputComparesWithFieldName | src/components/form/form.component.jsx:156-162 | The spread entry gives Input `equalTo: 'password'`, so the real password typed as confirmation is flagged unless it is the word "password" |
| ComponentsForm.FormMessageWins | src/components/form/form.component.jsx:74-82 | On confirmPassword the Form's message replaces Input's: a match with the stored password leaves '' although Input flagged it |
| ComponentsForm.ThroughInput | src/components/input/input.component.jsx:99-113 | When Input throws, the Form's state and messages are those from before the event; otherwise the Form's handler takes one `Changed` step |
| ComponentsForm.GroupsNeverRecord | src/components/input/input.component.jsx:18-41 | A checkbox or radio group whose entry has no `equalTo` gets no ref, so Input throws at :108 and the Form's state and messages stay as they were |
| ComponentsForm.PrivacyClickLost | src/example/form.data.js:141-162 | As written, a click on the example privacy group leaves its value at ''; as intended, it stores the toggled flags |
| ComponentsForm.ThroughInputIntended | src/components/input/input.component.jsx:99-113 | As intended, every event reaches the Form: the event's key gets its new value and every other key is kept |
| ComponentsForm.IntendedPrivacyRoundTrip | src/components/custom-input-fields/input-checkboxes.component.jsx:11-17 | As intended, clicking one privacy box twice restores the stored flags |
| ComponentsForm.EqualToNamesAField | src/components/form/form.component.jsx:156-162 | Another field whose `equalTo` names a field is flagged when it equals that field's value and cleared only when it holds the name |
| ComponentsForm.WithClearedMeaning | src/components/form/form.component.jsx:118-123 | Clearing sets the message of exactly the given names to '' and keeps the others |
| ComponentsForm.ClearFileInputs | src/components/form/form.component.jsx:118-123 | The refs loop clears exactly the fields whose recorded type is 'file' |
| ComponentsForm.Form.constructor | src/components/form/form.component.jsx:11-52 | Fields, buttons and unsupported come from the partition, the state is the initial state of the fields, the refs record each field's type |
| ComponentsForm.Form.HandleChange | src/components/form/form.component.jsx:58-105 | The changed name gets files, the toggled flag or the value; validity follows the confirmPassword and file checks |
| ComponentsForm.Form.HandleReset | src/components/form/form.component.jsx:111-124 | The initial state is merged into the state, and every file field is cleared along with its message |
| ComponentsForm.Form.HandleSubmit | src/components/form/form.component.jsx:130-138 | The parent receives the whole state; then the reset merges the initial state in and clears every file field and its message |
| CustomForm.NewValue | src/form-custom/form/form.component.jsx:58-72 | A file event stores '' iff the file list is empty and the files otherwise, a checkbox stores `checked`, everything else its value |
| CustomForm.NamelessFileEvent | src/form-custom/custom-input-fields/input-file.component.jsx:37 | The nameless fake file event stores '' under the key "undefined" |
| CustomForm.CheckboxGroupStoresArray | src/form-custom/form/form.component.jsx:69-71 | The checkbox group's untyped event stores its array as is |
| CustomForm.FilledFields | src/form-custom/form/form.component.jsx:108-117 | The snapshot has exactly the keys with truthy values, each with the stored value |
| CustomForm.FilledFieldsMeaning | src/form-custom/form/form.component.jsx:108-117 | A snapshot is characterised by its truthy keys and their values |
| CustomForm.FilledExample | src/form-custom/form/form.component.jsx:110-115 | '' and false are dropped, an all-false array is kept |
| CustomForm.FieldValue | src/form-custom/form/form.component.jsx:147 | A file field gets null, any other field its stored value |
| CustomForm.EqualToValue | src/form-custom/form/form.component.jsx:149 | A truthy equalTo resolves to the referenced field's current value, otherwise null |
| CustomForm.EqualToFollowsState | src/form-custom/form/form.component.jsx:149 | The resolved equalTo follows later changes of the referenced field |
| CustomForm.Form.constructor | src/form-custom/form/form.component.jsx:11-52 | Classification, initial state and refs are computed once from the schema |
| CustomForm.Form.HandleChange | src/form-custom/form/form.component.jsx:58-72 | Only the changed name's entry changes, to `NewValue` |
| CustomForm.Form.HandleReset | src/form-custom/form/form.component.jsx:78-97 | The initial state is merged into the state and exactly the file-typed refs are cleared |
| CustomForm.Form.HandleSubmit | src/form-custom/form/form.component.jsx:103-124 | The parent receives the truthy snapshot; then the reset merges the initial state in and clears the file refs |
| CustomForm.StrayKeySurvivesReset | src/form-custom/form/form.component.jsx:80 | A truthy key the initial state lacks survives the reset's merge and is in the next submitted snapshot |
| CustomForm.FileInputs | src/form-custom/form/form.component.jsx:85-96 | The refs loop clears exactly the fields whose recorded type is 'file' |
| InputField.EqualToMessage | src/components/input/input.component.jsx:106-110 | No message when equalTo is null; otherwise errMsg iff the value differs from equalTo, else '' |
| InputField.GroupsThrow | src/components/input/input.component.jsx:18-41 | A checkbox or radio group with an undefined `equalTo` throws in the check, and one with a null `equalTo` does not |
| InputField.AbsentEqualToFlags | src/components/input/input.component.jsx:106-108 | An undefined equalTo passes the `!== null` test and flags every value |
| InputField.ConfirmationAgainstPassword | src/components/input/input.component.jsx:106-110 | When `equalTo` holds the password's value, as the prop's contract at :224-228 asks, a confirmation equal to it clears the message and a different one sets errMsg |
| InputField.Shown | src/components/input/input.component.jsx:151-163 | Without a mask the raw value is shown; with one the shown value fits the template and carries its literals |
| InputField.Input.HandleChange | src/components/input/input.component.jsx:99-113 | Throws, forwarding nothing and writing no message, iff `equalTo` is not null and the field is a checkbox or radio group with no ref; otherwise validity follows `EqualToMessage` and the event is forwarded exactly once |
| InputField.Input.HandleMaskedField | src/components/input/input.component.jsx:120-131 | The unmasked event is validated and forwarded once, with the same throw as `HandleChange` |
| InputField.ShownThenForwarded | src/components/input/input.component.jsx:120-163 | Unmasking the shown value gives back the stored field value when it has no `#` and fits the slots |
| InputField.MaskedConfirmationMatches | src/components/input/input.component.jsx:120-131 | When `equalTo` holds the password's value, retyping the masked password in a masked confirmation clears its message |
| InputFile.ValidateFiles | src/form-custom/custom-input-fields/input-file.component.jsx:102-123 | Valid iff accept is empty or every MIME type is an exact token of `accept.split(', ')`; the message is 'File format not supported' when invalid, '' otherwise |
| InputFile.NothingToRefuse | src/form-custom/custom-input-fields/input-file.component.jsx:107-122 | No accept attribute, or no files, is valid |
| InputFile.FirstTokenAccepted | src/form-custom/custom-input-fields/input-file.component.jsx:110-114 | A file whose type is the first token is accepted |
| InputFile.OneRefusedSpoilsAll | src/form-custom/custom-input-fields/input-file.component.jsx:112-117 | One refused file makes the whole list invalid |
| InputFile.OnlyExactType | src/form-custom/custom-input-fields/input-file.component.jsx:110-114 | A type is accepted only as an exact token; a type differing from a one-token accept list is refused |
| InputFile.BuildLabel | src/form-custom/custom-input-fields/input-file.component.jsx:17-28 | The loop joins the per-file "name [size]" entries with '\n' and no trailing newline |
| InputFile.LabelEmptyIffNoFiles | src/form-custom/custom-input-fields/input-file.component.jsx:17-29 | The label is 'Choose a file' iff there are no files |
| InputFile.TwoFileLabel | src/form-custom/custom-input-fields/input-file.component.jsx:17-28 | Two files give "a [x]\nb [y]" |
| InputFile.Forwarded | src/form-custom/custom-input-fields/input-file.component.jsx:34-43 | A valid choice forwards the original event; an invalid one forwards a nameless file event with no files |
| InputFile.FileField.constructor | src/form-custom/custom-input-fields/input-file.component.jsx:6-7 | The label starts at 'Choose a file' and the field starts valid |
| InputFile.FileField.HandleChange | src/form-custom/custom-input-fields/input-file.component.jsx:13-46 | The label, validity and isValid are updated; the parent gets the fake empty event when invalid and the original one otherwise |
| InputCheckboxes.ToggledChangesOneSlot | src/components/custom-input-fields/input-checkboxes.component.jsx:12-13 | Exactly slot indx is negated and every other slot keeps its value; a slot past the end is set to true with undefined holes |
| InputCheckboxes.ToggleTwice | src/components/custom-input-fields/input-checkboxes.component.jsx:13 | Toggling the same boolean slot twice restores the array |
| InputCheckboxes.ToggleTwiceNormalises | src/components/custom-input-fields/input-checkboxes.component.jsx:13 | Toggling a non-boolean slot twice leaves its truthiness as a boolean |
| InputCheckboxes.FirstClickOnEmptyGroup | src/components/custom-input-fields/input-checkboxes.component.jsx:12-13 | The first click on a group still holding '' gives undefined holes and one true |
| InputCheckboxes.HandleChange | src/components/custom-input-fields/input-checkboxes.component.jsx:11-17 | The copy, with one slot toggled, is emitted as `{target: {name, value}}` with no type; the input array is not touched |
| AttribsEditor.AddAttrib | src/form-builder/fb-custom-fields/fb-additional-html.component.jsx:19-27 | A missing list defaults to []; one fresh blank attribute is appended and the list is emitted as 'additionalAttribs' |
| AttribsEditor.UpdateAttribName | src/form-builder/fb-custom-fields/fb-additional-html.component.jsx:30-35 | The shared element object gets the new name, so the caller's list shows it at every position holding that object, and the same list is emitted |
| AttribsEditor.UpdateAttribValue | src/form-builder/fb-custom-fields/fb-additional-html.component.jsx:38-43 | The shared element object gets the new value, visible at every position holding it |
| AttribsEditor.RemoveAttrib | src/form-builder/fb-custom-fields/fb-additional-html.component.jsx:46-51 | Exactly element indx is dropped, a negative indx counting from the end and one before the start dropping the first; what is left is part of the old list |
| AttribsEditor.RemoveLast | src/form-builder/fb-custom-fields/fb-additional-html.component.jsx:46-51 | Removing the only attribute leaves an empty list |
| OptionsEditor.AddOption | src/form-builder/fb-custom-fields/fb-options.component.jsx:77-83 | Appends '' or a fresh `{label: '', required: false}` and emits the copy as 'options' |
| OptionsEditor.OnOptionsChanged | src/form-builder/fb-custom-fields/fb-options.component.jsx:6-9 | The effect emits iff the list is empty, and then exactly one blank option |
| OptionsEditor.UpdateOption | src/form-builder/fb-custom-fields/fb-options.component.jsx:85-104 | 'option' replaces element indx; 'option-label' and 'option-required' set or toggle the shared object; any other name is logged and the unchanged copy is emitted |
| OptionsEditor.RemoveGuard | src/form-builder/fb-custom-fields/fb-options.component.jsx:107 | `!length === 1` is false for every length |
| OptionsEditor.RemoveOption | src/form-builder/fb-custom-fields/fb-options.component.jsx:106-112 | As written, nothing is ever removed or emitted |
| OptionsEditor.RemoveOptionIntended | src/form-builder/fb-custom-fields/fb-options.component.jsx:106-112 | With the intended guard an option is removed iff there is more than one |
| OptionsEditor.RemoveOptionDiscrepancy | src/form-builder/fb-custom-fields/fb-options.component.jsx:107-110 | On two options the written code does nothing where the intended one drops the first |
| OptionsEditor.IntendedKeepsOne | src/form-builder/fb-custom-fields/fb-options.component.jsx:106-112 | Under the intended guard a list never loses its last option |
| FieldEditor.DropIfTruthy | src/form-builder/field-builder/field-builder.component.jsx:55-61 | A key is deleted only when its value is truthy |
| FieldEditor.NameMessage | src/form-builder/field-builder/field-builder.component.jsx:31-34 | A name change sets 'This name has already been used!' iff the name is in usedNames, else ''; other changes set none |
| FieldEditor.HandleChange | src/form-builder/field-builder/field-builder.component.jsx:27-70 | The copy is edited by input name and emitted once with the draft's index; the old draft is only read |
| FieldEditor.NameSetsId | src/form-builder/field-builder/field-builder.component.jsx:35-38 | The name is stored and the id is the name, a dash and a number below 1000 that reads back from the id; nothing else changes |
| FieldEditor.ClearedNameStillGetsId | src/form-builder/field-builder/field-builder.component.jsx:37-38 | Clearing the name still sets an id |
| FieldEditor.RequiredToggles | src/form-builder/field-builder/field-builder.component.jsx:40-45 | Absent or false becomes true and true becomes false; toggling twice restores the flag |
| FieldEditor.TypeChangePrunes | src/form-builder/field-builder/field-builder.component.jsx:47-64 | Leaving an option type drops truthy options, leaving a text type drops truthy mask and equalTo, falsy values survive, every other key keeps its value |
| FieldEditor.TypeSetWithoutPruning | src/form-builder/field-builder/field-builder.component.jsx:47-64 | A first type, or the same type again, prunes nothing |
| FieldEditor.OtherKeySetsOnlyItself | src/form-builder/field-builder/field-builder.component.jsx:66-67 | Any other input sets exactly its own key |
| Builder.LastNamed | src/form-builder/form-builder/form-builder.component.jsx:39-41 | Finds the last pair with a given name, or none |
| Builder.WithAttribsLookup | src/form-builder/form-builder/form-builder.component.jsx:39-41 | After the pairs are assigned, a key holds the value of its last pair, or its old value when no pair names it |
| Builder.SpreadLookup | src/form-builder/form-builder/form-builder.component.jsx:32-41 | Spreading removes additionalAttribs and each other key reads as the last pair naming it or the old value |
| Builder.EditedKeepsAttribsWellFormed | src/form-builder/field-builder/field-builder.component.jsx:27-69 | An edit keeps `additionalAttribs` an attribute list whenever that key is set from the attribute editor's list, so the builder's invariant holds along the change path |
| Builder.LaterPairWins | src/form-builder/form-builder/form-builder.component.jsx:39-41 | Of two pairs with one name, the later value wins |
| Builder.SpreadAdditionalAttribs | src/form-builder/form-builder/form-builder.component.jsx:30-44 | The nested loops spread every draft in place |
| Builder.Submitted | src/form-builder/form-builder/form-builder.component.jsx:52-70 | The submitted schema is the spread drafts followed by the submit and the reset button |
| Builder.PlainDraftUnchanged | src/form-builder/form-builder/form-builder.component.jsx:32 | A draft without attributes is submitted unchanged |
| Builder.UsedNamesMembers | src/form-builder/form-builder/form-builder.component.jsx:77-79 | A name is used iff some draft has it as its truthy name |
| Builder.OwnNameFlagged | src/form-builder/form-builder/form-builder.component.jsx:77-79 | A draft's own name is in usedNames, so retyping it sets the duplicate message |
| Builder.UsedNamesTruthy | src/form-builder/form-builder/form-builder.component.jsx:78 | Every used name is truthy |
| Builder.NumerationFromFour | src/form-builder/form-builder/form-builder.component.jsx:115-126 | From 4 on the numeral is the number followed by "th" |
| Builder.TwentyFirst | src/form-builder/form-builder/form-builder.component.jsx:123-124 | 21 is numbered "21th" |
| Builder.FormBuilder.constructor | src/form-builder/form-builder/form-builder.component.jsx:9-11 | The builder starts with one empty draft |
| Builder.FormBuilder.AddField | src/form-builder/form-builder/form-builder.component.jsx:14-16 | One empty draft is appended |
| Builder.FormBuilder.RemoveField | src/form-builder/form-builder/form-builder.component.jsx:18-22 | Exactly draft indx is removed, with no lower bound on the count |
| Builder.FormBuilder.HandleChange | src/form-builder/form-builder/form-builder.component.jsx:24-28 | Only position indx is replaced |
| Builder.FormBuilder.HandleSubmit | src/form-builder/form-builder/form-builder.component.jsx:46-74 | Nothing on zero drafts; otherwise the submitted schema, with the drafts left unchanged |
| Builder.RemovingEverything | src/form-builder/form-builder/form-builder.component.jsx:18-22 | Removing the initial draft leaves zero drafts |

## Left out

- Rendering: every JSX `render` body, CSS and label markup. This includes `src/input/input.component.jsx`, `InputRadios`, `FormButton`, `Button`, `AddButton`, `RemoveButton` and `FBInput`. The props a render passes on are modelled only where named: `Displayed`, `Shown`, `FieldValue`, `EqualToValue`, `UsedNames`, and the entry spread into Input by the components form (`ComponentsForm.ElementMessage`). Other props are not modelled.
- `calculateSizeUnit` relies on floating-point division and `toFixed`. It is the parameter `sizeText` of the file label.
- `JSON.stringify` is a foreign call:
  - `StringifyAndHash` takes the code units of the stringified schema as input.
  - The builder's JSON deep copy is a value copy of the drafts.
- `Math.random` is the parameter `rand` below 1000.
- React machinery is not modelled:
  - asynchronous `setState` batching: handlers read the state from before the event, as React does within one handler;
  - `useEffect` timing;
  - `PureComponent` and `memo`.
- The `console.warn` about unsupported fields is not modelled. The `console.error` of `updateOption` is the returned flag `logged`.
- Three DOM effects are not modelled:
  - the `change` event that the form-custom reset dispatches on each cleared file input (the cleared names are returned instead);
  - the `click()` that opens the file picker;
  - `event.preventDefault()`.
- Object identity inside form state is not modelled: files, arrays and shallow copies are values. A submitted snapshot therefore cannot be told apart from the state it copies.
- ComponentsForm.Form.HandleChange keeps in `validity` only the Form's own `setCustomValidity` calls. The rendered Input writes to the same element first, comparing with the entry's `equalTo`, a field name. The combined effect of one event is `ComponentsForm.ElementMessage` for the message and `ComponentsForm.ThroughInput` for the state. Form.HandleChange runs only when Input does not throw. InputField.Input.HandleChange keeps its own `validity` field, because the Input is modelled apart from the element it shares with the Form.
- ClassicForm.Form.HandleChange reports the TypeError on a null `fieldRef` as the result `threw`. What React then does with the error is not modelled, and the state write before it is kept.
- FormUtils.ShallowCompareFormData compares nested arrays and objects inside schema entries by value, while the source's `!==` compares them by reference. A deep copy holding an `options` array reads as unchanged in the model and as changed in the source. A caller that needs identity passes such values as object references (`Ref`).
- MaskedInput.ShouldComponentUpdate takes `mask` and `value` as strings, with an absent prop modelled as "". The source's `!==` tells undefined apart from "", so that switch causes an update in the source and not in the model.
- Strings are sequences of Unicode characters, while the JavaScript loops index UTF-16 code units. A character outside the Basic Multilingual Plane fills two `#` slots of a mask in the source and one in the model.
- FormUtils.CreateInitialState requires `options[0]` to be readable on every named select. Reading it on undefined or null options throws, and that throw is not modelled. The form constructors carry the same requirement.
- Builder.FormBuilder.HandleChange requires indx to be a position in the list. Writing past the end of a JavaScript array is not modelled.
- Builder.Submitted requires every draft's additionalAttribs to be a list of attribute values (`AttribsWellFormed`). A draft where that key holds something else is not modelled.
- CustomForm.NewValue requires a file event to carry a file list. Spreading absent `files` throws in the source, and that throw is not modelled.
- ComponentsForm.Changed requires a file event's value to be a string, as a file input's value always is. The extension check on any other value is not modelled.
- MaskedInput.HandleChange and InputField.Input.HandleMaskedField require the typed value to be a string. Masking a non-string value is not modelled.
- MaskedInput.Displayed takes the value as a string. The render masks the value before its type guard, so a masked field whose value is undefined throws in the source on any type; that throw is not modelled.
- InputField.Shown takes string field values only. The masked display of an absent or non-string fieldValue is not modelled.
- InputCheckboxes.HandleChange requires fieldValue to be an array or a string. Spreading any other value throws in the source.
- OptionsEditor.UpdateOption requires indx to be in range, and requires an object option for 'option-label' and 'option-required'. Assigning a property of a string throws in strict mode.
- AttribsEditor.UpdateAttribName and AttribsEditor.UpdateAttribValue require indx to be in range. Anything else throws a TypeError in the source.
- FieldEditor.HandleChange requires a name change to carry text. Numbers in inputs are not modelled: every typed value is a string.
- Three assumptions about files that are not part of this model:
  - `form.types` is given as the parameters `supported` and `buttons`;
  - `src/form-custom/form/form.utils.js` is taken to match `src/components/form/form.utils.js`;
  - the `input.utils` next to `src/components/input` is taken to match `src/form-custom/input/input.utils.js`.
- The `errMsg` prop of `Input` is a string. A non-string error message is not modelled.

## Findings

| source | as written | input that shows it | evidently intended | confidence | as-written member | corrected member |
|---|---|---|---|---|---|---|
| src/form-builder/fb-custom-fields/fb-options.component.jsx:107 | `!optionsArray.length === 1` compares the boolean `!length` with the number 1, so the guard never passes and no option can ever be removed | a list of two options, remove clicked on the first: nothing is removed and no event is emitted | `optionsArray.length !== 1`: remove the option unless it is the last one | high; not executed | OptionsEditor.RemoveOption | OptionsEditor.RemoveOptionIntended |
| src/components/input/input.component.jsx:106-112 | `innerRef.current.setCustomValidity` runs whenever `equalTo !== null`, but `renderField` (:18-41) attaches the ref only to the select, textarea, file and plain input, so on a checkbox or radio group it throws before `onChange` | the example privacy checkboxes (src/example/form.data.js:141-162): any click leaves the stored value at '' | check only when the element has a ref, and always forward the event, so the group's flags are stored | high; not executed | ComponentsForm.PrivacyClickLost | ComponentsForm.ThroughInputIntended |
