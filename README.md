# dinglebit-config in Dafny

A model of the Rust crate `dinglebit_config`, a small configuration library.

- A configuration source answers `get(key)` with the string stored for a key, if there is one.
- The `Config` trait derives typed accessors from `get`: `must_get`, `string`, `int`, `bool`, `duration`, `list` and `map`.
- The crate provides four sources:
  - a `HashMap` of strings;
  - `Simple`, a flat table read from `key = value` text;
  - `Environment`, which reads environment variables named after the key;
  - `MultiConfig`, which asks a chain of sources in order, so the first source holding a key wins.

The model is split into modules that follow this structure.

- `Text`: the string primitives the crate relies on. These are `trim_matches`/`trim`, `split`, `splitn(2, ...)`, ASCII case mapping and single-character `replace`. `Join`, which the crate does not call, is the model's own inverse of `split`, used to state the round trips.
- `Tables`: the table built by inserting key/value pairs in order. A later pair overwrites an earlier one with the same key, as `HashMap::insert` in a loop and `collect` into a `HashMap` do.
- `Numbers`: `str::parse::<i64>`, and the decimal text of an integer, which it reads back.
- `Simple`: `parse_line`, the `parse` loop (a `method` with loop invariants), `from_str` and `get`. It also has a round trip: pairs written as `key = value` lines read back as the table of those pairs.
- `Env`: `Environment::new` and `get`. The key becomes a variable name: prefix, then `.`/`/` replaced by `_`, then upper case. The process environment is a map parameter.
- `Config`: the closed set of sources as a datatype, with `get` and the trait's accessors. It also proves round trips for the `list` format `[a, b, c]` and the `map` format `{k=>v, k=>v}`, and the examples of the crate's tests, except those about the parts listed under "## Left out".
- `Multi`: `MultiConfig::get` as a loop over the sources, proved against the first-found specification.

## Model

| member | source | states |
|---|---|---|
| Text.TrimMatches | src/lib.rs:106 | The trimmed text is no longer than the input, and neither of its ends is a character being stripped. |
| Text.TrimMatchesStrips | src/lib.rs:106 | `trim_matches` keeps a contiguous part of the text; everything cut off in front and behind is made of stripped characters. |
| Text.TrimMatchesUnique | src/lib.rs:106 | Any such cut whose remnant has bare ends is exactly what `trim_matches` returns, so the characterisation determines the result. |
| Text.TrimMatchesPadded | src/simple.rs:21 | Stripped characters added on either side of a text do not change its trimmed form. |
| Text.TrimMatchesLeftPadded | src/simple.rs:35 | Stripped characters added in front do not change the trimmed form. |
| Text.TrimMatchesRightPadded | src/simple.rs:36 | Stripped characters added behind do not change the trimmed form. |
| Text.TrimMatchesBare | src/simple.rs:35-36 | A text whose ends are not stripped characters is returned unchanged. |
| Text.TrimMatchesKeeps | src/simple.rs:21 | Trimming adds no character, and keeps every character that is not stripped. |
| Text.TrimMatchesKeepsAt | src/simple.rs:21 | A character that is not stripped survives, at its index less the length of the stripped front, with the same text before it. |
| Text.TrimMatchesFirst | src/simple.rs:21-22 | The first character after trimming is the first one of the input that is not stripped. |
| Text.TrimMatchesBefore | src/simple.rs:35 | The text before a kept character trims the same in the trimmed line as in the original line. |
| Text.TrimMatchesAfter | src/simple.rs:36 | The text after a kept character trims the same in the trimmed line as in the original line. |
| Text.TrimAll | src/lib.rs:108 | Trimming every part gives one trimmed text per part, in order. |
| Text.Find | src/simple.rs:29 | The result is the first index where the separator occurs, or none when it never occurs. |
| Text.FindFrom | src/simple.rs:29 | The result is the first occurrence at or after the start index, or none when there is none. |
| Text.Split | src/lib.rs:107 | `split` gives at least one piece, no piece contains the separator, and the pieces joined with the separator give back the text. |
| Text.SplitOnce | src/simple.rs:29 | `splitn(2, sep)` gives one part exactly when the separator does not occur; the parts rejoin to the text, and the first part has no separator. |
| Text.SplitJoin | src/lib.rs:119 | Splitting a join gives back the parts, provided no part contains the separator's first character. |
| Text.SplitCount | src/lib.rs:107 | Splitting at a character gives one piece more than there are occurrences of that character. |
| Text.SplitHead | src/lib.rs:121-126 | The first piece of `split` is the first part of `splitn(2, ...)`; there is a second piece exactly when there is a second part, and it is the first part of splitting that remainder again. |
| Text.ToLower | src/lib.rs:70 | Lower-casing keeps the length and maps each character through the ASCII lower-case mapping. |
| Text.ToUpper | src/env.rs:40 | Upper-casing keeps the length and maps each character through the ASCII upper-case mapping. |
| Text.Replace | src/env.rs:39 | Replacing keeps the length, turns every `from` into `to`, and leaves every other character alone. |
| Tables.Collect | src/lib.rs:129 | The table holds exactly the keys of the pairs, and each key holds the value of the last pair with that key. |
| Tables.CollectFirstKeys | src/simple.rs:43-53 | The keys after inserting the first `n` pairs are exactly those pairs' keys. |
| Tables.CollectFirstLast | src/simple.rs:49 | After inserting the first `n` pairs, each key holds the value of the last of them with that key. |
| Tables.CollectFirstPrefix | src/simple.rs:43-53 | Pairs inserted later do not change the table built from the earlier ones. |
| Tables.CollectStep | src/simple.rs:49 | Inserting one more pair changes exactly its key, to its value. |
| Tables.CollectOne | src/simple.rs:49 | A single pair gives a table with that one key. |
| Tables.CollectLastWins | src/lib.rs:129 | For every key in the table there is a last pair with that key, and the key holds that pair's value. |
| Numbers.ParseShow | src/lib.rs:55-57 | Parsing the decimal text of any integer gives that integer when it fits in 64 bits, and fails when it does not. |
| Numbers.ParseRejectsNonDigit | src/lib.rs:56 | A text with a non-digit after the optional sign fails to parse, so `int` has no value for it. |
| Numbers.ParseSigned | src/lib.rs:55-57 | An optional `+` or `-` followed by one or more digits, leading zeros allowed, reads as the digits' value, negated after `-`, when it fits in 64 bits; otherwise it fails. |
| Numbers.ParseRejectsNoDigits | src/lib.rs:56 | The empty text, a lone `+` and a lone `-` fail to parse. |
| Numbers.ParseSignedExamples | src/lib.rs:56 | `+7` and `007` read as 7, and `-0` reads as 0. |
| Simple.ParseLine | src/simple.rs:19-38 | The result is `Ok(None)` exactly for a blank or comment line, and an error exactly for another line without `=`; that error is `InvalidKeyValuePair`, and a parsed key holds no `=`. |
| Simple.ParseTrimmedLine | src/simple.rs:22-37 | The same four facts for a line already trimmed. |
| Simple.ParseTrimmedPair | src/simple.rs:29-37 | In a trimmed line, the key and value are the trimmed texts on either side of the first `=`. |
| Simple.ParseLinePair | src/simple.rs:19-37 | In any non-skipped line, the key is the trimmed text before its first `=` and the value the trimmed text after it, which may hold further `=`. |
| Simple.EqualsInTrimmed | src/simple.rs:21-29 | A line's first `=` is the trimmed line's first `=`, shifted by the stripped front. |
| Simple.ParsePadded | src/simple.rs:21-37 | For any whitespace padding, the padding around the key and around the value is dropped, and only the first `=` separates them; the key may be empty and the value may hold further `=`. |
| Simple.ParseFooBarExample | src/simple.rs:113-116 | The unit test's line `  foo    =    bar    ` reads as the pair `foo`, `bar`. |
| Simple.ParseCommentExample | src/simple.rs:111 | The unit test's comment line is skipped. |
| Simple.ParseNoEqualsExample | src/simple.rs:112 | The unit test's line `  test` is rejected with `InvalidKeyValuePair`. |
| Simple.LinesStep | src/simple.rs:43-53 | Accepting one more line extends the accepted prefix, and its pairs by that line's pair. |
| Simple.Parse | src/simple.rs:40-56 | It fails exactly when some line is rejected, with the error of the first rejected line, all lines before which are accepted. Otherwise it returns the table of all lines' pairs in order, later keys overwriting earlier ones; the result equals `Parsed`. |
| Simple.OneEntry | src/simple.rs:44-50 | A single accepted line contributes its one pair. |
| Simple.ParsedAs | src/simple.rs:40-56 | A text whose lines are all accepted reads as the table of their pairs. |
| Simple.ParsedOneLine | src/simple.rs:72-74 | A one-line text holding a key/value pair reads as the table of that pair. |
| Simple.ParsedEmpty | src/simple.rs:43-55 | Empty text reads as the empty table. |
| Simple.ParseRenderedLine | src/simple.rs:19-38 | A rendered line with a plain key and value parses back to that key and value. |
| Simple.RenderedEntries | src/simple.rs:43-53 | When every line parses to its pair, every prefix of the lines is accepted and yields the pairs in order. |
| Simple.RenderedAccepted | src/simple.rs:43-53 | The rendered lines are all accepted and give back the pairs in order. |
| Simple.RenderThenParse | src/simple.rs:40-56 | Pairs with plain keys and values, written one `key = value` per line, read back as the table those pairs build. |
| Simple.Simple.Get | src/simple.rs:89-95 | A value is returned exactly when the key is in the table, and it is the stored value. |
| Simple.FromStr | src/simple.rs:72-74 | Building succeeds exactly when every line is accepted, and then holds the table of the lines' pairs. Otherwise the error is `InvalidKeyValuePair`. |
| Env.Environment.VarName | src/env.rs:38-40 | The variable name is as long as prefix plus key, and each character is the prefixed key's character mapped by `EnvChar`. |
| Env.EnvChar | src/env.rs:39-40 | `.` and `/` become `_`, lower-case letters become upper case, and every other character stays; the result is never `.`, `/` or lower case. |
| Env.Environment.Get | src/env.rs:36-46 | A value is returned exactly when the variable named after the key is set, and it is that variable's value. |
| Env.New | src/env.rs:22-28 | An empty prefix stays empty; any other prefix gets `_` appended. |
| Env.VarNameIsClean | src/env.rs:39-40 | A variable name holds no `.`, no `/` and no lower-case letter. |
| Env.SameVarName | src/env.rs:39-40 | Keys whose characters map to the same name characters have the same variable name, and so read the same value in every environment: `foo.bar`, `foo/bar` and `FOO_BAR` agree. |
| Env.PrefixIsPartOfName | src/env.rs:22-28 | A prefixed source reads the same variable as an unprefixed one given `prefix_key`. |
| Env.VarNameIdempotent | src/env.rs:38-40 | Without a prefix, a variable name used as a key names itself. |
| Env.NewExamples | src/env.rs:56-69 | `new("test")` has prefix `test_` and `new("")` has the empty prefix; under prefix `foo`, key `my.app.secret` reads `FOO_MY_APP_SECRET`. |
| Env.GetExample | src/env.rs:72-78 | With `TEST_GET_FOO_BAR` set, `foo.bar` and `foo/bar` read its value; once it is unset they read nothing. |
| Config.Source.Get | src/lib.rs:147-154 | A table, a `Simple` source and an environment each answer with the value stored for the key, and only when it is stored. A chain's answer is stated by `Config.FirstFound`. |
| Config.Source.MustGet | src/lib.rs:44-46 | The value of a key that is present. |
| Config.Source.GetString | src/lib.rs:49-51 | The value of a key that is present, as a string. |
| Config.Source.GetInt | src/lib.rs:55-57 | The integer is what `parse::<i64>` reads from the value. |
| Config.Source.GetBool | src/lib.rs:69-78 | True exactly when the lower-cased value is one of `t`, `true`, `1`, `y`, `yes`. |
| Config.Source.GetDuration | src/lib.rs:84-88 | The duration is the number of seconds `parse::<i64>` reads from the value. |
| Config.Source.GetList | src/lib.rs:104-110 | There is one item more than the commas left after stripping brackets and whitespace; each item is trimmed and comma-free. |
| Config.Source.GetMap | src/lib.rs:116-130 | The table holds exactly the keys of the value's entries, each with the value of its last entry. |
| Config.FirstFound | src/multi.rs:24-32 | No value exactly when no source holds the key; otherwise the value of a source that holds it, with no earlier source holding it. |
| Config.FirstFoundShift | src/multi.rs:25-31 | When the first source does not hold the key, the rest of the chain decides: its first-found characterisation carries over to the whole chain. |
| Config.FirstFoundAt | src/multi.rs:25-29 | The first source that holds the key decides the value, whatever later sources hold. |
| Config.IsTrue | src/lib.rs:70-77 | True exactly when the lower-cased value is one of the five accepted words. |
| Config.IsTrueIgnoresCase | src/lib.rs:65-68 | A value and its upper-cased form read as the same boolean. |
| Config.IsTrueExamples | src/lib.rs:71-76 | `t`, `TRUE`, `1`, `Y` and `Yes` are true; the empty text, `0`, `false` and `on` are false. |
| Config.ListItems | src/lib.rs:105-109 | One item more than the commas of the stripped value; every item is trimmed and comma-free. |
| Config.ListRoundTrip | src/lib.rs:101-110 | Items written as `a, b, c`, enclosed in any run of brackets and whitespace or in none, read back as those items, in order. |
| Config.ListRoundTripTight | src/lib.rs:104-110 | Items written as `a,b,c`, without spaces or brackets, read back as those items, in order. |
| Config.ListItemsEmpty | src/lib.rs:105-109 | An empty value is a list of one empty item. |
| Config.TrimEnclosed | src/lib.rs:106 | Text enclosed in stripped characters, whose own ends are not stripped, trims to itself. |
| Config.TrimWord | src/lib.rs:108 | Whitespace in front of a word with bare ends is trimmed away. |
| Config.MapEntry | src/lib.rs:120-127 | The key is the trimmed text before the first `=>`. The value is the trimmed text between it and the next `=>`, or empty when there is no `=>`. |
| Config.MapEntries | src/lib.rs:117-128 | One entry more than the commas of the stripped value; every key and value is trimmed. |
| Config.EntriesOf | src/lib.rs:119-128 | One entry per item, in order, each read by `MapEntry`. |
| Config.MapEntryOfShown | src/lib.rs:121-125 | An entry written as `k=>v`, with whitespace in front, reads back as `(k, v)`. |
| Config.MapRoundTrip | src/lib.rs:112-128 | Pairs written as `k=>v, k=>v`, enclosed in any run of braces and whitespace or in none, read back as those pairs, in order. |
| Config.DefaultExample | src/lib.rs:163-171 | The `default` test: a table built from `foo`, `bar` and `baz` gives `bar` for `string("foo")`. |
| Config.HashMapExample | src/lib.rs:174-180 | The table test: `foo` reads `bar`, and `bar` has no value. |
| Config.StringIntBoolExample | src/lib.rs:214-217 | The accessor tests: `string("foo")` is `bar`, `int("int")` is 100 and `bool("bool")` is true. |
| Config.DurationExample | src/lib.rs:218 | The accessor test: `duration("duration")` is 50 seconds. |
| Config.ListExample | src/lib.rs:220 | The accessor test: `list("list")` is `1`, `2`, `3`. |
| Config.MapExample | src/lib.rs:221-227 | The accessor test: `map("map")` maps `a`, `b`, `c` to `1`, `2`, `3`. |
| Config.DocExample | src/lib.rs:15-24 | The crate's opening example: `foo` comes from the table, `baz` from the `Simple` source, and `bar` has no value. |
| Config.BazFooParsed | src/lib.rs:19 | The text `baz=foo` reads as the table mapping `baz` to `foo`. |
| Multi.MultiConfig.Get | src/multi.rs:24-32 | The loop returns the value of the first source holding the key, and none when no source does; the result is `FirstFound` of the chain. |
| Multi.New | src/multi.rs:18-20 | A chain of the given sources, in the given order. |
| Multi.FrontOverrides | src/multi.rs:11-17 | A source put in front of a chain overrides exactly the keys it holds; for other keys the chain answers as before. |
| Multi.MultiExample | src/multi.rs:40-55 | The chain test: `foo` reads `buz` from the first table, `bar` reads `baz` from the second, and `buz` reads `foo` from the first. |

## Left out

- `float` (src/lib.rs:59-63): floating-point parsing is not modelled.
- `datetime` (src/lib.rs:90-99): RFC 3339 date-time parsing is not modelled, nor are the date-time and float entries of the test table.
- `Simple::from_file` (src/simple.rs:76-86) and its test (src/simple.rs:123-138): they read files. The `Error.File` variant is kept, but nothing in the model produces it.
- `default_config!` (src/lib.rs:133-145): a macro that builds a `HashMap`; a table source is built from a map display instead.
- `env::var`: the process environment is a map parameter. Setting and removing a variable in the environment test become two different maps.
- Unicode: whitespace is ASCII whitespace (space and U+0009 to U+000D), and case mapping covers ASCII letters only. Rust's `trim`, `char::is_whitespace`, `to_lowercase` and `to_uppercase` are Unicode-aware.
- Panics: `unwrap` on a missing key or an unparsable integer panics in the crate. In the model these are preconditions of `MustGet`, `GetString`, `GetInt`, `GetBool`, `GetDuration`, `GetList` and `GetMap`.
- `Box<dyn Config>`: the open trait object becomes a closed datatype of the four sources the crate defines.
- Config.Source.GetDuration: does not model the panic of `chrono::Duration::seconds` for values beyond about ±9.2e15 seconds, because chrono is not part of this model.
- Config.ListItems: states the number and shape of the items, not each item's text. The text is pinned by `Config.ListRoundTrip` for items written as `a, b, c` with or without brackets, by `Config.ListRoundTripTight` for `a,b,c`, and by `Config.ListItemsEmpty` for the empty value. Lists with empty first or last items, or with other spacing, are covered only by the count and shape.
- Config.Source.GetList: the same as `Config.ListItems`, whose contract it repeats.
- Config.MapEntries: states the number of entries and that keys and values are trimmed, not their text. `Config.EntriesOf` and `Config.MapEntry` state each entry, and `Config.MapRoundTrip` pins the text for values written as `{k=>v, k=>v}`.
- Numbers.ParseI64: has no contract of its own; its definition is the specification of `parse::<i64>`. `Numbers.ParseSigned` states what it accepts (a sign, then digits, in range), and `Numbers.ParseRejectsNoDigits` and `Numbers.ParseRejectsNonDigit` state what it rejects. `Numbers.ParseShow` is the round trip with the decimal text.
