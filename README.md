# terraform-registry, modelled in Dafny

A Terraform module registry answers Terraform's registry protocol over HTTP.
Terraform learns where the modules API is from the discovery document at
`/.well-known/terraform.json`. It then lists the versions of a module, asks
for the latest version (a 302 redirect to the download path of that version),
and asks for one version's download (a 204 whose `X-Terraform-Get` header names
where the module's source lives). Records are kept in a key-value store keyed
by module name and version. A management CLI creates and deletes them and
copies a deployment stage's environment variables into the process
environment.

This project models that core and proves what it promises:

- `results.dfy`: `Option` and `Result`.
- `strings.dfy`: the Python string operations the code relies on, with Python's semantics. These are `sep.join`, `split(sep)` (empty parts kept), `split(sep, maxsplit)`, `partition` and `endswith`.
- `models.dfy`: the module name (`ModuleName`) with its slash-joined storage form and its dataclass `repr`, the stored record (`ModuleModel`), and the store as a map from (module name, version) to record. A store query is a parameter: the module's records, each once, in any order (`IsQuery`).
- `semver.dfy`: `semver.compare` as the precedence rules of Semantic Versioning 2.0.0. It parses `MAJOR.MINOR.PATCH[-PRERELEASE][+BUILD]`, raises for an invalid string, compares numerically per section 11.2 and pre-releases per sections 11.3 and 11.4, and ignores build metadata per section 10. Printing is proved to be the inverse of parsing.
- `latest.dfy`: `max(..., key=cmp_to_key(cmp), default=None)` for any comparison that may raise, proved generically against a total preorder, then applied to `semver.compare`.
- `http.dfy`: responses (status, headers, body), the JSON the handlers return, and a client's reading of an `{"errors": [...]}` document.
- `registry.dfy`: the handlers `list_versions`, `download_latest` and `download`, as functions of the module name, the store (or the query answer) and the request path.
- `manage.dfy`: `validate_fqvmn`, and `record_create` and `record_delete` as methods of a `Table` class holding the store. `_apply_chalice_stage` is a loop in a method of an `Environment` class holding the environment map.
- `app.dfy`: the discovery document, and the proof that the base it advertises reaches the handlers mounted under `/v1`.

Some behaviour of the code is worth stating up front; the model follows the code:

- The code does not check that module name fields are non-empty. Empty fields are accepted, and the codec round trip holds for them too.
- The `source` of the versions listing is `str()` of the dataclass, which is its `repr` (`ModuleName(namespace='…', name='…', provider='…')`), not the slash-joined form.
- The artifact locator is the record's `source` attribute. `ModuleModel` has no `getter_url` attribute.
- As written, a record without `source` makes `download` raise `TypeError` at chalicelib/modules.py:181-183, because `ChaliceViewError(msg=...)` rejects the keyword. The model's corrected `Download` answers 500 (see Findings).
- An invalid stored version makes `download_latest` raise only when a comparison is actually made. A module with a single version is never compared, so a lone invalid version is redirected to as it is.

## Model

| member | source | states |
|---|---|---|
| Strings.Join | chalicelib/models.py:50 | `"/".join(...)`: the first part starts the text; read back by `JoinSplit` and `SplitJoin` |
| Strings.Split | chalicelib/models.py:53 | `split("/")` gives one part more than there are separators |
| Strings.SplitExcludes | chalicelib/models.py:53 | no part of a split holds the separator |
| Strings.JoinSplit | chalicelib/models.py:49-53 | joining the parts of a split gives the string back |
| Strings.SplitJoin | chalicelib/models.py:49-53 | splitting the join of separator-free parts gives the parts back |
| Strings.SplitMax | manage.py:108 | `split("/", 4)` gives min(separators, 4) + 1 parts |
| Strings.JoinSplitMax | manage.py:108 | joining the parts of a limited split gives the string back |
| Strings.SplitMaxUnderLimit | manage.py:108 | below the limit, a limited split is the unlimited split |
| Models.Serialize | chalicelib/models.py:49-50 | the storage form is namespace, `/`, name, `/`, provider |
| Models.SerializeCount | chalicelib/models.py:49-50 | the storage form holds two separators plus those inside the fields |
| Models.Deserialize | chalicelib/models.py:52-53 | parsing succeeds exactly when there are two `/`; the fields then hold no `/`; otherwise the error gives the number of parts |
| Models.DeserializeSerialize | chalicelib/models.py:49-53 | parsing the storage form gives the name back exactly when no field holds a `/`, empty fields included |
| Models.SerializeDeserialize | chalicelib/models.py:49-53 | a string with exactly two `/` parses, and printing the result gives the string back |
| Models.SerializeInjective | chalicelib/models.py:49-50 | names without `/` in their fields never share a storage key |
| Models.SeparatedNamesCollide | chalicelib/models.py:49-50 | two different names with `/` in a field share one storage key |
| Models.Display | chalicelib/modules.py:103 | `str(fqmn)` is the dataclass repr: 44 characters longer than the storage form and never equal to it |
| Models.NewRecord | chalicelib/models.py:65-76 | a new record has the given key and source, 0 downloads, the creation time, and null optional attributes |
| Models.QueryListsStoredVersions | chalicelib/modules.py:105 | the versions a query yields are the stored versions of the module, as many as there are |
| Http.TextsStrings | chalicelib/modules.py:145 | a JSON array of strings reads back as those strings |
| Http.ErrorMessagesOfErrors | chalicelib/modules.py:145 | an `{"errors": [...]}` document reads back as its messages |
| SemVer.Parse | chalicelib/modules.py:138 | a version string parses to a well-formed version; `ParseFormat` and `FormatParse` make parsing and printing inverse |
| SemVer.CompareVersions | chalicelib/modules.py:138 | precedence answers -1, 0 or 1; its order laws are the `CompareVersions…` lemmas below |
| SemVer.Compare | chalicelib/modules.py:138 | `semver.compare` succeeds exactly when both arguments are versions; the error names the first invalid one; the answer is -1, 0 or 1 |
| SemVer.CompareReflexive | chalicelib/modules.py:138 | a version compares equal to itself |
| SemVer.CompareAntisymmetric | chalicelib/modules.py:138 | swapping the arguments negates the answer |
| SemVer.CompareTransitive | chalicelib/modules.py:138 | "not above" is transitive |
| SemVer.CompareZero | chalicelib/modules.py:138 | two versions compare equal exactly when they differ at most in build metadata |
| SemVer.CompareVersionsAntisymmetric | chalicelib/modules.py:138 | precedence is antisymmetric, and zero exactly for equal major, minor, patch and pre-release |
| SemVer.CompareVersionsTransitive | chalicelib/modules.py:138 | precedence is transitive |
| SemVer.CompareTextAntisymmetric | chalicelib/modules.py:138 | Python's string order is antisymmetric |
| SemVer.CompareTextZero | chalicelib/modules.py:138 | Python's string order is zero exactly for equal strings |
| SemVer.CompareTextTransitive | chalicelib/modules.py:138 | Python's string order is transitive |
| SemVer.CompareIdentifiersAntisymmetric | chalicelib/modules.py:138 | pre-release lists compare antisymmetrically, and zero exactly for equal lists |
| SemVer.CompareIdentifiersTransitive | chalicelib/modules.py:138 | pre-release lists compare transitively |
| SemVer.DigitsValueOfNatToString | chalicelib/modules.py:138 | a printed number reads back as itself |
| SemVer.ParseFormat | chalicelib/modules.py:138 | every well-formed version prints to a string that parses back to it |
| SemVer.FormatParse | chalicelib/modules.py:138 | every string accepted as a version is the printed form of what it parses to: no leading zeros, no alternative spellings |
| SemVer.NatToStringOfDigitsValue | chalicelib/modules.py:138 | a numeral without leading zeros prints back as itself |
| SemVer.IdentifierTextsOfParse | chalicelib/modules.py:138 | parsed pre-release identifiers print back as their text, and the non-numeric ones are alphanumeric |
| SemVer.NumericPrecedence | chalicelib/modules.py:138 | precedence is numeric: 0.0.0 < 0.9.0 < 0.10.0 |
| SemVer.PrereleasePrecedence | chalicelib/modules.py:138 | the pre-release ordering example of section 11.4, each step strictly increasing |
| SemVer.BuildMetadataIgnored | chalicelib/modules.py:138 | build metadata takes no part in precedence (section 10) |
| Latest.MaxFrom | chalicelib/modules.py:136-140 | the fold's answer is its start or one of the elements it passes; `MaxFromBound`, `MaxFromFirst` and `MaxFromFails` say which |
| Latest.Max | chalicelib/modules.py:136-140 | `max(..., default=None)` is `None` only for no elements and otherwise one of them; `MaxBound`, `MaxFirst` and `MaxFails` say which |
| Latest.MaxEmpty | chalicelib/modules.py:136-140 | `max(..., default=None)` is `None` exactly for no elements |
| Latest.MaxFails | chalicelib/modules.py:136-140 | `max` raises exactly when there are two or more elements and one is undefined for the comparison |
| Latest.MaxFromFails | chalicelib/modules.py:136-140 | the fold raises exactly when it meets an undefined element |
| Latest.MaxFromBound | chalicelib/modules.py:136-140 | nothing the fold passes over is above what it finds |
| Latest.MaxFromFirst | chalicelib/modules.py:136-140 | the fold finds its start, or the first element strictly above everything before it |
| Latest.MaxBound | chalicelib/modules.py:136-140 | no element is strictly above the maximum, and with two or more elements each is not above it |
| Latest.MaxFirst | chalicelib/modules.py:136-140 | the maximum is an element, and every element before it is strictly below it |
| Latest.MaxOrderIndependent | chalicelib/modules.py:136-140 | any reordering gives the same maximum or one of equal precedence |
| Latest.MaxBelowReorderedMax | chalicelib/modules.py:136-140 | the maximum of one order is not above the maximum of another order |
| Latest.AllDefinedReordered | chalicelib/modules.py:136-140 | reordering keeps every element defined for the comparison |
| Latest.CompareDefined | chalicelib/modules.py:138 | `semver.compare` raises exactly when an argument does not compare with itself |
| Latest.CompareReflexiveAll | chalicelib/modules.py:138 | `semver.compare` is reflexive on versions |
| Latest.CompareAntisymmetricAll | chalicelib/modules.py:138 | `semver.compare` is antisymmetric on versions |
| Latest.CompareTransitiveAll | chalicelib/modules.py:138 | `semver.compare` is transitive on versions |
| Latest.CompareIsPreorder | chalicelib/modules.py:138 | `semver.compare` is a total preorder on versions |
| Latest.LatestVersion | chalicelib/modules.py:136-140 | the chosen version is one of the queried versions, and there is none only for no versions; `LatestVersionIsMaximum` says which |
| Latest.LatestVersionFails | chalicelib/modules.py:136-140 | picking the latest raises exactly when there are two or more versions and one is invalid |
| Latest.LatestVersionIsMaximum | chalicelib/modules.py:136-140 | the latest is a listed version, none compares above it, and every version before it compares strictly below it |
| Latest.LatestVersionOrderIndependent | chalicelib/modules.py:136-140 | the latest has the same precedence in any order, and is the same string when no two versions share a precedence |
| Latest.LatestVersionExample | chalicelib/modules.py:136-140 | out of 0.0.0, 0.9.0 and 0.10.0, in any order, the latest is 0.10.0 |
| Registry.ListVersions | chalicelib/modules.py:93-110 | one top-level key `modules`; read back by `ListVersionsReadsBack` as one module, under its repr, with the versions in query order |
| Registry.VersionsReadEntries | chalicelib/modules.py:104-106 | the version objects read back as the queried versions, in order |
| Registry.ListVersionsReadsBack | chalicelib/modules.py:99-110 | the listing holds one module, under its repr, with the queried versions in the store's order |
| Registry.ListVersionsComplete | chalicelib/modules.py:99-110 | against the store, each stored version of the module is listed exactly once |
| Registry.QueryVersionsComplete | chalicelib/modules.py:105 | a query's versions are the stored versions, without repetition |
| Registry.RewritePath | chalicelib/modules.py:148-150 | a trailing `/download` gains `/<version>` in front of it, and the path before it is kept; any other path is unchanged |
| Registry.RewritePathInverse | chalicelib/modules.py:148-150 | removing the inserted `/<version>` gives the request path back |
| Registry.RewriteSuffixed | chalicelib/modules.py:148-150 | `<prefix>/download` becomes `<prefix>/<version>/download` |
| Registry.DownloadLatest | chalicelib/modules.py:135-155 | raises exactly when the version choice raises; no versions gives 404 with the not-found message; otherwise 302 with `Location` and anchor body both set to the rewritten path for a queried version |
| Registry.DownloadLatestExample | chalicelib/modules.py:135-155 | 0.0.0, 0.9.0 and 0.10.0, stored in any order, redirect to the download of 0.10.0 |
| Registry.LatestFromStore | chalicelib/modules.py:136-140 | the chosen version is stored for the module, and no stored version compares above it |
| Registry.DownloadLatestFromStore | chalicelib/modules.py:135-155 | 404 exactly when nothing is stored, with exactly one error message; otherwise a redirect to the latest stored version |
| Registry.Download | chalicelib/modules.py:177-195 | 204 with `X-Terraform-Get` set to the source exactly when the record has one; 404 with the lookup message exactly when it is absent; 500 with the missing-source message exactly when the source is null |
| Registry.DownloadAsWritten | chalicelib/modules.py:177-195 | as written, a null source raises `TypeError`; every other case answers as `Download` does |
| Registry.DownloadMissingSourceRaises | chalicelib/modules.py:180-183 | a record saved without a source: the handler as written raises, and the corrected one answers 500 |
| Manage.ValidateFqvmn | manage.py:106-113 | accepted exactly when there are three `/`; the four parts hold no `/` and join back to the input; otherwise `BadParameter` with the format message |
| Manage.FourParts | manage.py:108-109 | with three `/`, the limited split gives four separator-free parts that join back to the input |
| Manage.ValidateFqvmnText | manage.py:106-113 | a record's `<namespace>/<name>/<provider>/<version>` text parses back to its name and version |
| Manage.Created | manage.py:143-154 | put-if-absent: an existing key leaves the store unchanged; an absent key gains a new record; no other key changes |
| Manage.Deleted | manage.py:165-171 | the key is absent afterwards, and no other key changes |
| Manage.CreatedWellKeyed | manage.py:143-154 | creating keeps every record under its own key |
| Manage.CreatedIdempotent | manage.py:143-154 | creating twice is creating once |
| Manage.DeletedIdempotent | manage.py:165-171 | deleting twice is deleting once |
| Manage.DeletedUndoesCreated | manage.py:143-171 | deleting a record just created for an absent key gives the store back |
| Manage.DownloadAfterCreated | manage.py:143-154 | after creating, the download answers 204 with the given locator |
| Manage.DownloadAfterDeleted | manage.py:165-171 | after deleting, the download answers 404 |
| Manage.CreatedAsWritten | manage.py:149-153 | as written, an absent key raises the unknown-attribute error and nothing is saved; an existing key leaves the store unchanged |
| Manage.CreateAsWrittenSavesNothing | manage.py:148-154 | for an absent key, the download still answers 404 after the command as written, and 204 after the corrected one |
| Manage.Table.Create | manage.py:143-154 | answers 1 exactly when the record exists; the new table is the put-if-absent of the old one, and every record stays under its own key |
| Manage.Table.CreateAsWritten | manage.py:143-154 | answers 1 for an existing record and the constructor's error otherwise; the table is unchanged |
| Manage.Table.Delete | manage.py:165-171 | the new table is the old one without the key, and every record stays under its own key |
| Manage.MergeAbsent | manage.py:40-42 | `os.environ.setdefault` over the stage's items: no name is lost; the `MergeAbsent…` lemmas below say what is set |
| Manage.MergeAbsentKeepsExisting | manage.py:40-42 | variables already set are never overwritten |
| Manage.MergeAbsentKeys | manage.py:40-42 | the merged names are the existing names plus the stage's |
| Manage.MergeAbsentFirstWins | manage.py:40-42 | an unset variable takes the value of the first stage item naming it |
| Manage.MergeAbsentIdempotent | manage.py:40-42 | applying the same stage again changes nothing |
| Manage.Environment.ApplyStage | manage.py:36-42 | an unknown stage changes nothing; otherwise the loop leaves the environment equal to the merge of the stage's variables |
| App.Discovery | app.py:25-34 | with a `host` header, one key `modules.v1`; without one, the lookup fails |
| App.ParseUrlOf | app.py:34 | `scheme://authority/path` parses back into its three parts |
| App.DiscoveryReachesHandlers | app.py:22-34 | the advertised base followed by a route is an `https` URL on the request's host, whose path is that route mounted under `/v1` |
| App.DiscoveryAdvertisesPrefix | app.py:22-34 | the `/v1` written in the discovery document is the prefix the modules handlers are mounted at: the base is `https://<host>` followed by that prefix |
| App.MountedRewrite | chalicelib/modules.py:148-150 | on a mounted path, the rewrite inserts the version right before the trailing `/download` |
| App.LatestRedirectsToDownload | chalicelib/modules.py:123-158 | the redirect from the mounted latest-download route is the mounted route of that version's download |

## Left out

- I/O and the clock are parameters. The store is a map, a store query is a sequence constrained by `IsQuery`, and the creation time is a parameter `now`. The request's `host` header and path are parameters.
- PynamoDB persistence, attribute metadata, import-time table creation and `record_list` are left out. So are DynamoDB setup, backup and restore, the GitHub App registration flow, and reading the configuration file and environment. These are I/O, network or randomness.
- The handlers `search`, `list_all`, `list_namespace`, `list_latest_all_providers`, `list_latest` and `get_module` are left out. They raise `NotImplementedError` or only forward to `search`.
- Click's command wiring, exit codes and the rendering of `param` in the `BadParameter` message are left out. The message takes the parameter's text as given.
- Chalice's response details beyond status, headers and body are left out, as is its generic answer to an uncaught exception, which is modelled only as an `Uncaught` error value.
- Models.Display: strings are quoted as `'…'` without Python's escaping of quotes, backslashes or unprintable characters.
- SemVer.Compare: `\d` in the version pattern also matches non-ASCII digits in Python, and `$` also matches before a final newline; the model accepts ASCII digits only and no trailing newline.
- Registry.RewritePath: `$` in the pattern also matches before a final newline of the path, and the replacement text is not scanned for group references; the model rewrites only a path that ends in `/download` and inserts the version literally.
- Registry.DownloadLatest: the `ValueError` is modelled by its invalid version string only. Its `ensures` states that the 302 goes to some queried version; the lemmas `Latest.LatestVersionIsMaximum` and `Registry.DownloadLatestFromStore` state which one.
- The store is keyed by the `ModuleName` value rather than by its storage string. The two agree for names without `/` in a field (`Models.SerializeInjective`), and `Models.SeparatedNamesCollide` shows where they do not.
- App.Discovery: the header map is keyed by lower-cased names, as Chalice presents request headers, which it looks up without regard to case; a header sent as `Host` is in the map as `host`.
- Manage.Environment.ApplyStage: an unknown stage raises `KeyError` in the source; the method answers `false` instead. Configuration entries are taken in the order given.

## Findings

| source | as written | input that shows it | evidently intended | confidence | as-written member | corrected member |
|---|---|---|---|---|---|---|
| manage.py:149-153 | `record_create` builds the model with `getter_url=getter_url`, which names no attribute of `ModuleModel`, so PynamoDB raises and nothing is saved | any absent key, e.g. `namespace/name/provider/0.1.0` with `./name` | save the locator as `source`, the attribute `download` reads | high (not executed) | Manage.CreatedAsWritten, Manage.CreateAsWrittenSavesNothing | Manage.Created, Manage.DownloadAfterCreated |
| chalicelib/modules.py:181-183 | `ChaliceViewError(msg=...)` passes a keyword argument to an exception class without its own initialiser, which raises `TypeError`, so the `except ChaliceViewError` branch is never reached | a stored record whose `source` is null | answer 500 with `{"errors": [message]}` | high (not executed) | Registry.DownloadAsWritten, Registry.DownloadMissingSourceRaises | Registry.Download |
