# RON format adapter of config-rs, modelled in Dafny

config-rs reads settings from documents in several formats and turns each
into its own dynamically typed value tree (`Value`, whose `kind` is one of
`Nil`, `Boolean`, `Integer`, `Float`, `String`, `Array`, `Table`, and whose
`origin` names the document). This project models the adapter for RON
documents, `src/file/format/ron.rs`:

- `from_ron_value` translates the tree the RON library has already parsed
  (`ron::Value`) into a `Value`, node by node, tagging every node with the
  document's origin. It fails only when a map key cannot be read as a string.
- `parse` keeps the entries of the translated root when the root is a table
  and returns an empty map for any other root.

Files:

- `wrappers.dfy`: `Option`, and a `Result` whose error carries no content
  (usable with `:-`, the counterpart of Rust's `?`).
- `primitives.dfy`: Rust's `i64` as a bounded newtype and `f64` as its
  64-bit pattern.
- `ron_value.dfy` (module `Ron`): `ron::Value`, `ron::Number`, the key
  conversion `into_rust::<String>()` (`IntoString`), `KeysConvert`, which
  holds when every map key at every depth converts, `EntryKeysConvert`, the
  same for one map entry, and `StripSome`, which removes enclosing `Some`
  wrappers.
- `config_value.dfy` (module `ConfigValue`): `Value`, `ValueKind`, and
  `OriginEverywhere`, which holds when every node carries a given origin.
- `ron_format.dfy` (module `RonFormat`): `Parse`, `FromRonValue`, the
  two collect pipelines `FromSeq` and `FromMap`, and `EntryConverts`, which
  holds when both the key and the value of one map entry convert.
- `ron_format_properties.dfy` (module `RonFormatProperties`): lemmas about
  how each kind of RON value is translated and what `Parse` returns.

The text parser `ron::from_str` is not modelled: `Parse` takes its outcome,
a parsed tree or a syntax error, as its `document` argument. The RON key
conversion comes from the RON and serde libraries, whose code is not part
of this model. `Ron.IntoString` models it as those libraries behave: the RON
value deserializer hands a string or a character to Rust's `String`
visitor, which accepts both, and reports every other kind of value
(including `Some("…")`) as an invalid type. This definition is an
assumption, not a proved contract. The properties that say when conversion
fails are stated in terms of `Ron.IntoString`, so they hold whatever that
conversion accepts.

## Model

| member | source | states |
|---|---|---|
| `RonFormat.FromRonValue` | src/file/format/ron.rs:20-68 | fails exactly when some map key at some depth does not convert to a string; on success every node at every depth carries the `uri` passed in |
| `RonFormat.FromSeq` | src/file/format/ron.rs:43-49 | succeeds exactly when every element converts; then it has the input's length and element `i` is the conversion of input element `i` |
| `RonFormat.FromMap` | src/file/format/ron.rs:52-63 | succeeds exactly when every entry's key converts to a string and its value converts; every value in the table carries `uri` at every depth |
| `RonFormat.Parse` | src/file/format/ron.rs:8-18 | fails exactly when the document did not parse or one of its keys does not convert; every value kept carries `uri` at every depth |
| `RonFormatProperties.UnitAndNoneAreNil` | src/file/format/ron.rs:25-30 | `Unit` and `None` both become a `Nil` node tagged with `uri` |
| `RonFormatProperties.ScalarsMapOneToOne` | src/file/format/ron.rs:32-41 | booleans, integers and floats keep their payload in the matching kind; a string stays the same string; a character becomes the one-character string |
| `RonFormatProperties.OptionIsTransparent` | src/file/format/ron.rs:25-26 | `Some(v)` converts to exactly what `v` converts to, a failure included |
| `RonFormatProperties.NestedOptionsCollapse` | src/file/format/ron.rs:25-26 | any number of nested `Some` wrappers convert to what the innermost value converts to |
| `RonFormatProperties.SeqBecomesArray` | src/file/format/ron.rs:43-49 | a sequence converts exactly when all its elements do, to an array of the same length whose element `i` is the conversion of element `i` |
| `RonFormatProperties.FromMapKeys` | src/file/format/ron.rs:52-63 | the table's keys are exactly the strings the entries' keys convert to |
| `RonFormatProperties.FromMapValues` | src/file/format/ron.rs:52-63 | each key of the table holds the converted value of some entry whose key converts to that string |
| `RonFormatProperties.FromMapSoleKey` | src/file/format/ron.rs:52-63 | a string that only one entry's key converts to holds that entry's converted value |
| `RonFormatProperties.KeySetSize` | src/file/format/ron.rs:52-61 | there are never more distinct converted keys than entries |
| `RonFormatProperties.MapBecomesTable` | src/file/format/ron.rs:52-63 | a map converts exactly when every key converts to a string and every value converts, to a table with exactly the converted keys, no more keys than entries, each key holding the converted value of an entry with that key, and a key produced by one entry only holding that entry's value |
| `RonFormatProperties.ParseKeepsMapRoot` | src/file/format/ron.rs:12-14 | a root that is a map, possibly under `Some` wrappers, yields exactly the table that converting the map builds, or its failure |
| `RonFormatProperties.ParseDropsOtherRoots` | src/file/format/ron.rs:12-17 | any other root whose keys convert yields an empty map, not an error |
| `RonFormatProperties.ParsePropagatesSyntaxError` | src/file/format/ron.rs:12 | a document the RON parser rejected is rejected |

## Left out

- `ron::from_str`, the RON grammar: a foreign library. `Parse` takes its outcome as a parameter.
- Floating point: a float payload is carried as its 64-bit pattern and never computed with.
- Error contents and messages: the boxed foreign errors are reduced to a contentless `Err`.
- `Value::new` and the rest of the value module: only the `origin` and `kind` fields the adapter fills in are modelled, and `Value::new(uri, kind)` is the constructor `Value(uri, kind)`.
- Lookups by reference versus ownership (`clone`, `into_iter`) are not modelled: the model works on values.
- `RonFormatProperties.MapBecomesTable`: when two keys convert to the same string, the table keeps the value of the last such entry in the order of the `entries` sequence, because the model's fold inserts entries first to last (the proof helper `RonFormatProperties.FromMapLast` shows the step). Nothing claims that this sequence order is the RON library's iteration order: `ron::Map` iterates in the order of `ron::Value`'s own `Ord`, which is not modelled, so `MapBecomesTable` only states which value a key produced by a single entry holds.
- `Ron.IntoString`: an assumed model of the RON library's `Value` deserializer together with serde's `String` visitor (a string converts to itself, a character to the one-character string, every other kind is an invalid type). That library code is not part of this model, so the definition is not checked against any code.
- `HashMap` order: tables are unordered Dafny maps.
