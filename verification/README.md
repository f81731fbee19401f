# Kiosk web UI settings store, modelled in Dafny

This project models the text layer of the kiosk's web UI settings manager (`webui.py`). There are three parts:

- **Reading `config.sh`** (`read_config_sh`). Each of 18 fixed field patterns is searched in the whole file text. Each key gets the capture of the leftmost match, or `""` when the pattern does not occur. An unreadable file gives an empty dictionary.
- **Writing `config.sh`** (`write_config_sh`). The same 18 patterns run in table order. Each one is a replace-all with `NAME=<value>`, threaded through one string. `<value>` is the submitted value when the key is present, even if it is empty; the table's default is used only when the key is absent.
- **The URL form filter** of the `/urls` route. A submitted key is kept only if its value, stripped of surrounding whitespace, is not empty. The stripped value is what gets stored.

Files:

- `chars.dfy` (`Chars`): the character classes. These are ASCII `\w` and `\d`, plus the whitespace set of Python's `str.isspace()`.
- `matcher.dfy` (`Matcher`): the four pattern shapes, written as pure recursive functions:
  - `NAME="…"`, where the value has no `"`;
  - `NAME=` followed by word characters;
  - `NAME=` followed by digits;
  - `MAX_LOG_SIZE=$((N*1024*1024))`.

  The module also holds the matcher `MatchHere`, the leftmost search (`Find`, `Extract`) and the replace-all (`Sub`), with their properties.
- `config_sh.dfy` (`ConfigSh`): the 18-row table, in source order. It holds the read loop (`ReadConfigSh`), the write loop (`WriteConfigSh`) and the specification functions those loops are proved against.
- `config_doc.dfy` (`ConfigDoc`): a well-formed settings file as a document. A document is a sequence of recognised assignments, separated by text that holds no recognised `NAME=`. The module proves what one search and one substitution do to such a document.
- `round_trip.dfy` (`RoundTrip`): what the whole write does to a document, idempotence, and read-after-write.
- `scenarios.dfy` (`Scenarios`): concrete files, including a `NETWORK_READY_CHECK_INTERVAL` assignment placed before `CHECK_INTERVAL`.
- `url_form.dfy` (`UrlForm`): `str.strip()` and the filter loop.

The patterns have no anchors, and this matters in one place. `CHECK_INTERVAL=` is a suffix of `NETWORK_READY_CHECK_INTERVAL=`; this is the only such overlap among the 18 names (`ConfigSh.NameSuffix`). As a result:

- the `CHECK_INTERVAL` substitution also rewrites the value of every `NETWORK_READY_CHECK_INTERVAL` assignment;
- the later `NETWORK_READY_CHECK_INTERVAL` substitution then puts back that row's own value, so the written file is right (`RoundTrip.WrittenDoc`);
- the `CHECK_INTERVAL` search finds the first assignment of either name. After a write it therefore reads the network-ready value whenever that assignment comes first (`RoundTrip.ReadAfterWrite`, `Scenarios.NetworkReadyFirstScenario`).

## Model

| member | source | states |
|---|---|---|
| ConfigSh.ReadConfigSh | webui.py:28-69 | An unreadable file gives the empty map. Otherwise the result has exactly the 18 table keys, and each maps to the value that key's search reads from the text. |
| ConfigSh.SearchAll | webui.py:57-62 | The extraction loop builds the dictionary `ReadRows` describes: each row, in order, sets its key to its search result. |
| ConfigSh.ReadRowsKeys | webui.py:57-62 | The dictionary's keys are the rows' names, one entry per row, when the names are distinct. |
| ConfigSh.ReadRowsValues | webui.py:57-62 | Each row's key maps to that row's search result in the text. |
| ConfigSh.WriteConfigSh | webui.py:72-110 | A failed read gives no new text. Otherwise the text has been threaded through the 18 substitutions in table order, each using the submitted value or, when the key is absent, the default. |
| ConfigSh.NamesDistinct | webui.py:36-55 | The 18 table names are pairwise distinct. |
| ConfigSh.NameSuffix | webui.py:39-44 | The only table name that is a proper suffix of another is `CHECK_INTERVAL`, which is a suffix of `NETWORK_READY_CHECK_INTERVAL` starting 14 characters in. |
| ConfigSh.NameCharAt | webui.py:36-55 | Every name is spelled with capital letters and underscores. |
| ConfigSh.DefaultFits | webui.py:80-97 | Every default value fits its row's pattern and contains no `=`. |
| Matcher.MatchHereSound | webui.py:37-54 | A match is `NAME=`, the opening, a run of the row's character class, and the closing. The run is maximal for word and digit rows, and the capture fits the row. |
| Matcher.MatchHereComplete | webui.py:37-54 | Text that starts with `NAME=`, the opening, a fitting value and the closing matches, with that value as the capture. For word and digit rows the value must not be followed by another class character. |
| Matcher.Find | webui.py:58 | The position found is inside the text, and a match starts there. |
| Matcher.FindLeftmost | webui.py:58 | No match starts before the position found, and none starts anywhere when nothing is found. |
| Matcher.Extract | webui.py:58-62 | The search reads `""` or a value that fits the row's shape. |
| Matcher.ExtractLeftmost | webui.py:58-62 | The search reads the capture of the leftmost match, or `""` when the pattern does not occur. |
| Matcher.ReplacementMatches | webui.py:79-98 | The text a write puts in, `NAME=` plus a fitting value plus the closing, is matched by that row's pattern, whose capture is the value. |
| Matcher.SubAbsent | webui.py:100-101 | Where the pattern does not occur, replace-all leaves the text unchanged. |
| Matcher.SubUnmatchedPrefix | webui.py:100-101 | Text in which no match starts is copied unchanged in front of the rest of the replace-all. |
| Matcher.SubAtMatch | webui.py:100-101 | A match is replaced, and the scan resumes after it, so every occurrence is replaced and none is rescanned. |
| Matcher.SuffixReplacement | webui.py:82-87 | When one name ends another, the longer name's assignment text is the extra prefix followed by the shorter name's assignment text. |
| Matcher.ExtractInside | webui.py:39-44 | The search for the shorter name reads the value of an assignment to the longer name. |
| Matcher.SubInside | webui.py:82-87 | Replace-all for the shorter name rewrites the value of an assignment to the longer name. |
| ConfigDoc.SiteSub | webui.py:100-101 | One substitution rewrites an assignment's value exactly when the row's pattern covers it, and copies it otherwise. |
| ConfigDoc.SiteSubNested | webui.py:82-87 | The `CHECK_INTERVAL` substitution turns `NETWORK_READY_CHECK_INTERVAL=w` into `NETWORK_READY_CHECK_INTERVAL=v`. |
| ConfigDoc.SiteExtract | webui.py:58-62 | A search reads an assignment's value when the row's pattern covers it, and otherwise looks further on. |
| ConfigDoc.SiteExtractNested | webui.py:39-44 | The `CHECK_INTERVAL` search reads the value of a `NETWORK_READY_CHECK_INTERVAL` assignment. |
| ConfigDoc.NetworkReadySplit | webui.py:82-87 | `NETWORK_READY_CHECK_INTERVAL=v` is `NETWORK_READY_` followed by `CHECK_INTERVAL=v`. |
| ConfigDoc.DocSub | webui.py:100-101 | On a well-formed file, one substitution sets every assignment its pattern covers to the new value, and changes nothing else. |
| ConfigDoc.DocExtract | webui.py:57-62 | On a well-formed file, a search reads the value of the first assignment its pattern covers, or `""` when there is none. |
| ConfigDoc.RenderSeparated | webui.py:100-101 | In a well-formed file, the text after an assignment is empty or starts with a boundary character. |
| RoundTrip.RetargetWF | webui.py:100-101 | A substitution with a fitting value keeps the file well-formed. |
| RoundTrip.StageStep | webui.py:100-101 | Substitution `n` takes every assignment from its value after `n` substitutions to its value after `n + 1`. |
| RoundTrip.AppliedDoc | webui.py:79-101 | After the first `n` substitutions, each assignment holds its staged value, and the file stays well-formed. |
| RoundTrip.WrittenDoc | webui.py:79-101 | The write sets every assignment to its own key's value (the default when absent), including `NETWORK_READY_CHECK_INTERVAL`. Text between assignments is preserved exactly. |
| RoundTrip.WriteIdempotent | webui.py:79-101 | Writing the same settings twice gives the same text as writing them once. |
| RoundTrip.ReadAfterWrite | webui.py:36-101 | After a write, each row reads the value written to the first assignment its pattern covers, or `""` when the file has none. |
| RoundTrip.ReadAfterWriteOwnValue | webui.py:36-101 | After a write, a row whose assignment occurs reads its own submitted value or default. The exception is `CHECK_INTERVAL` when a `NETWORK_READY_CHECK_INTERVAL` assignment comes first. |
| RoundTrip.NoEqualsNoAssignment | webui.py:36-55 | A value without `=` holds no recognised `NAME=`. |
| RoundTrip.DefaultOK | webui.py:80-97 | Every default is an acceptable value for its row. |
| RoundTrip.SubmittedValuesOK | webui.py:80-97 | If every submitted value of a recognised key fits its row, every value the write uses does. |
| Scenarios.LogSizeText | webui.py:96 | The `MAX_LOG_SIZE` assignment is the value wrapped in `$((` and `*1024*1024))`. |
| Scenarios.LogSizeScenario | webui.py:53-101 | Reading `MAX_LOG_SIZE=$((10*1024*1024))` gives `10`. Writing `25` gives `MAX_LOG_SIZE=$((25*1024*1024))`. |
| Scenarios.EmptyValueScenario | webui.py:89 | A `POWEROFF_TIME` submitted empty is written as `POWEROFF_TIME=""`, not with the default `04:00`. |
| Scenarios.NetworkReadyFirstScenario | webui.py:36-101 | For a file where `NETWORK_READY_CHECK_INTERVAL=5` precedes `CHECK_INTERVAL=10`, writing 7 and 30 stores both correctly. Reading `CHECK_INTERVAL` afterwards gives 7. |
| UrlForm.Lead | webui.py:179-180 | The leading whitespace that `strip()` removes. |
| UrlForm.Trail | webui.py:179-180 | The trailing whitespace that `strip()` removes. |
| UrlForm.Strip | webui.py:179-180 | `strip()` keeps the text between the leading and the trailing whitespace. What remains, if anything, neither starts nor ends with whitespace. |
| UrlForm.StripEmpty | webui.py:179 | A value strips to nothing exactly when it is all whitespace. |
| UrlForm.StripIdempotent | webui.py:180 | Stripping twice is the same as stripping once. |
| UrlForm.KeptValuesClean | webui.py:177-180 | No stored URL is empty or starts or ends with whitespace, and filtering the stored mapping again changes nothing. |
| UrlForm.FilterUrls | webui.py:177-180 | A key is kept exactly when its stripped value is non-empty, and it is stored with the stripped value. |

## Left out

- Flask routing, templates, redirects, flash messages, argument parsing and the server. `flash` calls on failure are not modelled.
- File I/O. The file text is a parameter, and a failed read is `None`. A failed write, which the source reports as `False`, is not modelled: `ConfigSh.WriteConfigSh` returns the new text, or `None` when the read failed.
- `urls.ini` reading and writing through `configparser`, and the `/api/urls` route. They belong to a foreign library whose format is not visible here.
- Python's `re` replacement escapes. `ConfigSh.WriteConfigSh` requires that no submitted value of a recognised key contains a backslash.
- Unicode `\w` and `\d`. Only ASCII letters, digits and `_` are modelled.
- Non-string submitted values. A JSON number or boolean would be formatted by the f-string; only strings are modelled.
- Form keys that repeat. The form is a map from each key to its first value, and `UrlForm.FilterUrls` visits keys in no particular order. The result does not depend on the order, because keys are distinct.
- RoundTrip.WriteIdempotent is proved for well-formed files only, not for arbitrary text. A well-formed file is a sequence of recognised assignments separated by text with no recognised `NAME=` in it, in which every value fits its row.
- RoundTrip.ReadAfterWrite is proved for well-formed files only, and for submitted values that fit their rows (a quoted value must hold no recognised `NAME=`). For example, an empty value for a digit row writes `CHECK_INTERVAL=`, which no pattern matches any more.
- ConfigDoc.DocSub and ConfigDoc.DocExtract are stated for well-formed files only. On other text the model's `Matcher.Sub` and `Matcher.Extract` still apply, with the properties listed for them above.
