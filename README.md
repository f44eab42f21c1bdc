# Placeholder anonymizer, modelled in Dafny

`presidio_placeholder_anonymizer.py` is a command-line tool. It swaps the
personal data that Presidio detects in a text for placeholders of the form
`<ENTITY_TYPE_index>` and writes the placeholder mapping to a JSON file.
Given that file, it puts the original values back by plain string
replacement. This project models:

- the custom operator `PlaceholderAnonymizer`: `operate`, `validate` and
  `REPLACING_FORMAT`. It is a class whose `Operate` method updates the
  shared `entity_mapping` dict in place;
- the mapping logic of `anonymize_text`. One fresh `{}` is created per
  call and shared by every operator call of that run, and
  `{"entity_mapping": …}` is written back;
- `deanonymize_text`. Nested loops build the reverse map (placeholder to
  original), then `str.replace` runs once per reverse-map entry, in
  insertion order;
- the `rstrip("\n")` applied to standard input.

Python dicts are insertion-ordered association lists (module `Dict`).
`Get` finds the first entry with a key. `Put` is `d[k] = v`: it overwrites
in place when the key is present and appends otherwise. The nested mapping
is `Dict<string, Dict<string, string>>` (module `Mapping`).
`str(index)`, `str.replace` (including Python's behaviour for an empty
pattern) and `str.rstrip("\n")` are written out in module `PyStr`.

The operator's behaviour is specified by the pure function
`Allocator.Allocate`. `Operate` is proved equal to it, and the lemmas about
`Allocate` cover:

- reuse of a stored placeholder;
- idempotence;
- the next index being `len` of the type's dict;
- nothing stored being lost;
- preservation of `Dense`. A dense mapping has unique keys and numbers the
  entries of type T as `<T_0>`, `<T_1>`, … in insertion order.

Because the format is injective, a dense mapping never gives two values the
same placeholder. The reverse map therefore inverts it exactly.

The Presidio analyzer and anonymizer engine are not modelled. Their output
is taken as input: the text split into `Plain` and `Detected` segments,
plus the order in which the engine calls `operate`. `AnonymizeText` stands
in for the engine's splicing.

On top of this, `RoundTrip.AnonymizeRoundTrip` proves that deanonymizing
the printed text with the written mapping gives back the original, for any
call order. This needs two conditions:

- no '<' occurs in the plain text or in any detected value;
- no entity type contains '<' or '>'.

The module comment in `round_trip.dfy` explains why the code needs them.
`DocumentedExample` works through the module's usage text: "Peter lives in
London." becomes "<PERSON_0> lives in <LOCATION_0>." and comes back.

## Model

| member | source | states |
|---|---|---|
| Dict.Get | presidio_placeholder_anonymizer.py:65-71 | `k in d` / `d[k]`: absent exactly when no entry has key k; a value found is an entry of d |
| Dict.Put | presidio_placeholder_anonymizer.py:76 | `d[k] = v`: afterwards k maps to v; a new key is appended at the end; an existing key keeps its position and every key keeps its place |
| Dict.PutOther | presidio_placeholder_anonymizer.py:76 | assigning to one key leaves every other key's value unchanged |
| Dict.PutAt | presidio_placeholder_anonymizer.py:76 | with unique keys, assigning to a present key rewrites exactly that entry in place |
| Dict.PutKeysUnique | presidio_placeholder_anonymizer.py:149 | assignment never creates a duplicate key |
| Dict.PutEntries | presidio_placeholder_anonymizer.py:149 | after assignment, every entry is an old entry or the assigned pair |
| Dict.GetAt | presidio_placeholder_anonymizer.py:70-71 | with unique keys, looking up the key at position i gives the value at position i |
| PyStr.Decimal | presidio_placeholder_anonymizer.py:75 | `str(index)` is a non-empty string of decimal digits that starts with '0' exactly when the index is 0 (no leading zero) |
| PyStr.ParseDecimalOfDecimal | presidio_placeholder_anonymizer.py:75 | reading the printed index back gives the index |
| PyStr.DecimalInjective | presidio_placeholder_anonymizer.py:75 | distinct indices print differently |
| PyStr.ReplaceAll | presidio_placeholder_anonymizer.py:154 | `s.replace(pat, rep)`: a non-empty pattern that does not occur leaves s unchanged; the pattern on its own becomes rep; replacing a pattern by itself is the identity, the empty pattern included. For a non-empty pattern `ReplaceFirst` fixes the result when the pattern occurs, and `InsertAround` covers the empty pattern |
| PyStr.ReplaceNonEmpty | presidio_placeholder_anonymizer.py:154 | the left-to-right scan for a non-empty pattern: the same three facts, each proved by induction over the scan |
| PyStr.ReplaceFirst | presidio_placeholder_anonymizer.py:154 | with i the leftmost occurrence of a non-empty pattern, the result is s[..i], then rep, then the replacement of what follows the occurrence, so overlapping occurrences go to the leftmost one (`ReplaceOverlapping`: `"aaa".replace("aa", "b")` is `"ba"`) |
| PyStr.InsertAround | presidio_placeholder_anonymizer.py:154 | `s.replace("", rep)` is rep, s[0], rep, s[1], …, rep: its length is \|s\| + (\|s\|+1)·\|rep\|, block i (at i·(\|rep\|+1)) is rep for every i ≤ \|s\|, the character after block i is s[i], and an empty rep gives s back |
| PyStr.ReplaceConcat | presidio_placeholder_anonymizer.py:154 | if no occurrence straddles the seam of a + b, replace distributes over the concatenation |
| PyStr.RStripNewlines | presidio_placeholder_anonymizer.py:181 | the result is a prefix of the input that does not end in '\n', and everything stripped is '\n' |
| Mapping.FormatPlaceholder | presidio_placeholder_anonymizer.py:75 | `REPLACING_FORMAT.format(...)`: `ParsePlaceholder`, via `LastUnderscore`, splits `<…>` at its last '_' and reads the digits after it, gives back exactly the type and the index |
| Mapping.FormatInjective | presidio_placeholder_anonymizer.py:52 | `<{entity_type}_{index}>` determines both the type and the index, also for types that contain '_' |
| Mapping.DenseLookup | presidio_placeholder_anonymizer.py:73-76 | in a dense mapping the placeholder stored for a value is `<T_j>`, where j is the value's position under T |
| Mapping.DenseDistinct | presidio_placeholder_anonymizer.py:39-49 | in a dense mapping no two values share a placeholder, whether of the same type or different types |
| Allocator.Allocate | presidio_placeholder_anonymizer.py:54-77 | after one call, the value is stored under its type with the returned placeholder |
| Allocator.AllocateReuses | presidio_placeholder_anonymizer.py:69-71 | a value already mapped gets its stored placeholder back and the mapping is unchanged |
| Allocator.AllocateIdempotent | presidio_placeholder_anonymizer.py:69-71 | a second call with the same type and value returns the same placeholder and changes nothing |
| Allocator.AllocateNew | presidio_placeholder_anonymizer.py:64-76 | a new value gets `<T_n>`, where n is the number of entries already under T (0 for a new type). Exactly that entry is appended under T. A new type is appended at the end of the outer dict. Every other type is unchanged |
| Allocator.AllocateKeeps | presidio_placeholder_anonymizer.py:75-76 | a value stored before a call keeps its placeholder |
| Allocator.AllocateShape | presidio_placeholder_anonymizer.py:64-76 | a new value either appends a new last type or appends one entry to the existing type's dict in place |
| Allocator.AllocateDense | presidio_placeholder_anonymizer.py:64-76 | one call keeps the mapping dense |
| Allocator.AllocateAll | presidio_placeholder_anonymizer.py:111-122 | the operator calls of one run, in order, on the shared mapping: from a dense mapping (the empty `{}` included) they leave it dense |
| Allocator.AllocateAllRecords | presidio_placeholder_anonymizer.py:111-122 | after a sequence of calls, every value passed in any call is mapped |
| Allocator.PutAppended | presidio_placeholder_anonymizer.py:66-76 | assigning to a key that was just appended rewrites that last entry |
| Allocator.EntityMapping.constructor | presidio_placeholder_anonymizer.py:111 | `entity_mapping = {}` starts empty |
| Allocator.PlaceholderAnonymizer.Operate | presidio_placeholder_anonymizer.py:54-77 | without a mapping: ValueError with the source's message. Without an entity type: KeyError with the mapping untouched. Otherwise: returns `Allocate`'s placeholder and leaves the shared mapping equal to `Allocate`'s mapping |
| Allocator.PlaceholderAnonymizer.Validate | presidio_placeholder_anonymizer.py:79-86 | passes exactly when both parameters are present; otherwise fails with the matching ValueError message |
| Anonymizer.OperateInOrder | presidio_placeholder_anonymizer.py:114-122 | calling the operator on the shared mapping once per detected segment, in the engine's order, leaves the mapping equal to those allocations in sequence. Each segment's token is the one stored for it |
| Anonymizer.Rendered | presidio_placeholder_anonymizer.py:114-122 | the text with every detected segment replaced by its stored placeholder; text with nothing detected is printed unchanged |
| Anonymizer.Splice | presidio_placeholder_anonymizer.py:114-122 | the anonymized text is the plain text with each detected segment replaced by its stored token |
| Anonymizer.AnonymizeText | presidio_placeholder_anonymizer.py:111-125 | the written document is `{"entity_mapping": m}`, where m holds this call's allocations from an empty start. m covers every detected segment, and the printed text is the rendered text under m |
| Anonymizer.AnonymizedMapping | presidio_placeholder_anonymizer.py:111-125 | the mapping of one call is dense and has an entry for every detected segment |
| Deanonymizer.BuildReverseMap | presidio_placeholder_anonymizer.py:145-149 | the nested loops compute the fold of `reverse_map[placeholder] = original` over the entries in iteration order |
| Deanonymizer.DeanonymizeText | presidio_placeholder_anonymizer.py:142-157 | the output is the input after one `replace(placeholder, original)` per reverse-map entry, in order |
| Deanonymizer.Flatten | presidio_placeholder_anonymizer.py:147-148 | the loops visit exactly the (original, placeholder) entries stored under some type |
| Deanonymizer.ReverseMap | presidio_placeholder_anonymizer.py:146-149 | the reverse map has no duplicate placeholder, and each of its entries is a stored entry turned around |
| Deanonymizer.InvertLastWins | presidio_placeholder_anonymizer.py:147-149 | when a placeholder repeats, the reverse map keeps the last original written for it |
| Deanonymizer.InvertAbsent | presidio_placeholder_anonymizer.py:147-149 | a placeholder in no entry is not a key of the reverse map |
| Deanonymizer.InvertFrom | presidio_placeholder_anonymizer.py:147-149 | every reverse-map entry is some mapping entry turned around |
| Deanonymizer.Invert | presidio_placeholder_anonymizer.py:146-149 | the fold of `reverse_map[placeholder] = original` has no duplicate placeholder and at most one entry per mapping entry; `InvertLastWins`, `InvertAbsent`, `InvertFrom` and `InvertFunctional` give its contents |
| Deanonymizer.Substituted | presidio_placeholder_anonymizer.py:152-154 | the chain of `replace` calls, first entry to last, leaves text alone when no reverse-map key is empty or occurs in it; `SubstitutedPieces` gives what it does to anonymized text |
| Deanonymizer.InvertFunctional | presidio_placeholder_anonymizer.py:147-149 | if every entry carrying p has original v, the reverse map sends p to v |
| Deanonymizer.ReverseMapInverts | presidio_placeholder_anonymizer.py:145-149 | for a dense mapping, the reverse map sends every stored placeholder back to its value |
| Deanonymizer.Deanonymized | presidio_placeholder_anonymizer.py:146-154 | the reverse map built from the mapping, then the replace loop: when every stored placeholder is non-empty and none occurs in the text, the text comes back unchanged |
| RoundTrip.FormatWellFormed | presidio_placeholder_anonymizer.py:52 | a placeholder minted for a type without angle brackets is '<', bracket-free text, '>' |
| RoundTrip.ReplaceInPieces | presidio_placeholder_anonymizer.py:154 | on text made of clean literals and tokens, one `replace` turns exactly the tokens equal to the pattern into the value |
| RoundTrip.SubstitutedPieces | presidio_placeholder_anonymizer.py:151-154 | the replace loop resolves each token the reverse map knows to its original and leaves every unknown token verbatim |
| RoundTrip.DeanonymizeRestores | presidio_placeholder_anonymizer.py:142-154 | with a dense, clean mapping covering every detected segment, deanonymizing the rendered text restores the original |
| RoundTrip.AllocateAllClean | presidio_placeholder_anonymizer.py:111-122 | calls with bracket-free types and '<'-free values leave the mapping dense and clean |
| RoundTrip.AnonymizeRoundTrip | presidio_placeholder_anonymizer.py:111-154 | for any engine call order, deanonymizing the printed text with the written mapping gives back the input |
| DocumentedExample.PeterMappingAllocated | presidio_placeholder_anonymizer.py:39-47 | visiting Peter then London from an empty mapping yields `{PERSON: {Peter: <PERSON_0>}, LOCATION: {London: <LOCATION_0>}}` |
| DocumentedExample.PeterLivesInLondon | presidio_placeholder_anonymizer.py:16-21 | "Peter lives in London." is printed as "<PERSON_0> lives in <LOCATION_0>.", and deanonymizing that text with the written mapping gives "Peter lives in London." |

## Left out

- Presidio's `AnalyzerEngine` and `AnonymizerEngine` are not part of this model. The detected spans come in as `Plain`/`Detected` segments, which means the spans are assumed not to overlap. The order of the operator calls is an input (`order`), and the engine's splicing is replaced by `Splice`.
- JSON encoding and decoding, reading and writing the mapping file, and `print` are left out. The mapping document is a typed value, `MappingDocument`, and the printed text is a method result.
- A mapping file that is malformed is not modelled: a missing `entity_mapping` key, or values that are not dicts of strings. `DeanonymizeText` takes an already well-typed document.
- `argparse`, the mode dispatch in `main`, the default path `~/.cache/presidio_mapping.json`, and reading standard input are left out. Only the `rstrip("\n")` is modelled.
- `operator_name` and `operator_type` are left out. They return constants used only to register the operator with the engine.
- `Allocator.PlaceholderAnonymizer.Operate`: Python's `not params` on an empty dict and a dict without the `entity_mapping` key both become `entityMapping == None`. The params dict is not modelled beyond its two keys.
- RoundTrip.AnonymizeRoundTrip: proved only when plain text and detected values contain no '<' and entity types contain no angle brackets. Without these conditions the direct replacement can fail:
  - an original value that spells another placeholder is rewritten again by a later `replace`;
  - surrounding text can combine with a token into a different placeholder.
- RoundTrip.DeanonymizeRestores: carries the same conditions, through `CleanMapping` and the '<'-free plain text.
- Three facts about the code fix what the model promises:
  - the next index of a type is `len` of that type's dict at the time of the call (line 73), so indices are consecutive only while entries are never removed;
  - placeholders are `<TYPE_i>` with i counted from 0 for each type (lines 52, 67);
  - the mapping file is written with a plain `write_text` (line 126), with no lock and no temporary file renamed into place. Two concurrent runs writing the same file are therefore not modelled.

  Since `anonymize_text` starts from an empty mapping on every call (line 111), each call's file holds only that call's entries.
