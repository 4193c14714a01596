# WinShield core in Dafny

WinShield checks the patch state of a Windows machine. It has three stages.

- **The scanner** works out which months of security bulletins apply, starting from the installed cumulative update. It merges the bulletin records per KB, closes the installed KBs under the "supersedes" relation, and reports the KBs that are still missing.
- **The downloader** turns the missing list into catalog queries. It scores and selects catalog candidates against the machine's baseline, and takes the package URLs out of the download dialog.
- **The installer** lists the downloaded packages, lets the user pick one, and runs `wusa.exe` or `dism.exe` on it.

This project models the logic of the three stages. Each piece follows the form of the Python it models:

- Sequential loops become methods, each proved equal to a function on values.
- The in-place record merge becomes a class that holds the record map.
- Comprehensions and conditionals become functions.
- The properties the program relies on are lemmas about those functions.

| file | module | models |
|---|---|---|
| wrappers.dfy | Wrappers | `Option`, `Result`, and the values a "append on success" loop keeps |
| text.dfy | Text | `lower`/`upper`, `strip`, `in` on strings, `split` before the first and after the last separator |
| ordering.dfy | Ordering | Python's `<` on strings, `sorted(set(...))` |
| decimal.dfy | Decimal | `str(n)` and `int(s)` |
| month_window.dfy | MonthWindow | `build_month_ids_from_lcu`, `chunk_list` |
| kb_merge.dfy | KbMerge | `merge_kb_entries` (class `KbIndex`), the finalisation loop of the scanner's `main` |
| supersedence_graph.dfy | SupersedenceGraph | the supersedes graph, reachability, and the walk's state and invariant |
| supersedence.dfy | Supersedence | `compute_supersedence`, loop by loop |
| correlation.dfy | Correlation | the expected and missing sets, the status precedence, and the rows of `print_kb_table` |
| constraints.dfy | Constraints | `build_constraints` |
| missing_list.dfy | MissingList | `build_missing_list` |
| catalog.dfy | Catalog | the row filter of `parse_search_candidates`, `build_dialog_params`, `extract_download_urls`, the download file name |
| scoring.dfy | Scoring | `score_candidate` |
| selection.dfy | Selection | `choose_best_candidate` |
| installer.dfy | Installer | `find_packages`, `extract_kb_label`, the selection prompt, the tool dispatch, the exit status |

## Model

| member | source | states |
|---|---|---|
| MonthWindow.NextMonth | src/winshield_scanner.py:96-99 | The next month is one month later. December rolls over to January of the next year. |
| MonthWindow.StartMonth | src/winshield_scanner.py:79-81 | The start is never after the end. It differs from the installed month exactly when that month is after the end. |
| MonthWindow.MonthIds | src/winshield_scanner.py:62-101 | The result is an error exactly when the baseline lacks admin rights or an installed month. Otherwise it has min(`max_months`, months from the clamped start to the end) entries, none of them after the end. |
| MonthWindow.BuildMonthIds | src/winshield_scanner.py:62-101 | Without admin rights it fails with the admin error, and that check comes first. Without an installed month it fails with the missing-month error. Otherwise it succeeds with the range `MonthIds` describes. |
| MonthWindow.WindowShape | src/winshield_scanner.py:83-101 | The loop yields min(budget, months up to the end) entries. Entry i is i months after the start, and no entry is after the end. |
| MonthWindow.WindowConsecutive | src/winshield_scanner.py:86-99 | Each entry is the month after the previous one, so the range strictly increases. |
| MonthWindow.MonthIdsWindow | src/winshield_scanner.py:80-101 | The range is at most `max_months` long and strictly increasing by one month. None of it is after the end, and it starts at the clamped start. It is non-empty when `max_months` > 0. |
| MonthWindow.ClampedStart | src/winshield_scanner.py:80-81 | An installed month after the end gives exactly the end month alone. |
| MonthWindow.FullSpan | src/winshield_scanner.py:88-94 | When the span fits in `max_months`, the range runs from the installed month to the end month and covers every month in between. |
| MonthWindow.Chunks | src/winshield_scanner.py:104-105 | `chunk_list` works on a list of any element type. Every chunk is non-empty and at most `size` long, and all but the last are exactly `size` long. |
| MonthWindow.ChunksPartition | src/winshield_scanner.py:104-105 | The chunks concatenate back to the input. Every chunk is non-empty and at most `size` long, and all but the last are exactly `size` long. |
| KbMerge.AppendNew | src/winshield_scanner.py:122-124 | The old values stay first, in order. Exactly the truthy incoming values are added. Duplicate-free stays duplicate-free. |
| KbMerge.Target | src/winshield_scanner.py:116-119 | `setdefault` returns the existing record, or a fresh untyped one with empty fields. In a well-formed index the result is the record of that KB, with duplicate-free fields that hold no empty value. |
| KbMerge.GrowSpec | src/winshield_scanner.py:121-124 | The field loop keeps the KB and the type. Each field keeps its old values in front and gains exactly the entry's truthy values. A field that was duplicate-free and free of empty values stays so. |
| KbMerge.MergeAll | src/winshield_scanner.py:108-124 | No existing record is dropped, and an entry without a KB never adds the key "". |
| KbMerge.MergeAllSnoc | src/winshield_scanner.py:111-124 | Merging one more entry is one more step of the outer loop. |
| KbMerge.MergeAllKeys | src/winshield_scanner.py:111-119 | After the merge the keys are the old keys plus every truthy incoming KB, and nothing else. Entries without a KB are skipped. |
| KbMerge.MergeAllUntouched | src/winshield_scanner.py:111-124 | A record no incoming entry names is left exactly as it was. |
| KbMerge.MergeAllKeeps | src/winshield_scanner.py:116-124 | An existing record keeps its KB and its type. Its old values stay, in order, at the front of each field. |
| KbMerge.MergeAllValues | src/winshield_scanner.py:121-124 | A field holds exactly its old values and the truthy values the incoming entries for that KB bring. |
| KbMerge.MergeAllWellFormed | src/winshield_scanner.py:111-124 | The merge keeps every record keyed by its own non-empty KB, with fields that are duplicate-free and hold no empty value. |
| KbMerge.MergeOrderIrrelevant | src/winshield_scanner.py:111-124 | Merging a then b gives the same keys and field contents as b then a. |
| KbMerge.Finalized | src/winshield_scanner.py:286-290 | The finalised record keeps its KB and is always typed Standalone or Superseding. |
| KbMerge.FinalizedSpec | src/winshield_scanner.py:286-290 | Each field ends up sorted, duplicate-free and with the same values. The type is Superseding exactly when `Supersedes` is non-empty, else Standalone. |
| KbMerge.FinalizedIdempotent | src/winshield_scanner.py:286-290 | Finalising twice gives the same record as finalising once. |
| KbMerge.FinalizedWellFormed | src/winshield_scanner.py:287-289 | Finalising a record whose fields hold no empty value leaves its fields duplicate-free and without empty values. |
| KbMerge.FinalizedAllWellFormed | src/winshield_scanner.py:286-290 | Finalising every record of a well-formed index keeps the index well formed. |
| KbMerge.ExampleMerged | src/winshield_scanner.py:111-124 | Two entries for one KB merge into one record. Months are unioned in first-seen order, and CVEs and supersedes are carried over. |
| KbMerge.ExampleFinalized | src/winshield_scanner.py:286-290 | Months are sorted as strings, so "2024-Feb" comes before "2024-Jan". A record that supersedes something is typed Superseding. |
| KbMerge.KbIndex.constructor | src/winshield_scanner.py:262 | The index starts empty and well formed. |
| KbMerge.KbIndex.AppendValues | src/winshield_scanner.py:122-124 | The inner loop computes `AppendNew`. |
| KbMerge.KbIndex.MergeKbEntries | src/winshield_scanner.py:108-124 | The in-place merge keeps the index well formed. Its new map is `MergeAll` of the old one. |
| KbMerge.KbIndex.Finalize | src/winshield_scanner.py:286-290 | The keys stay the same, every record is replaced by its finalised form, and the index stays well formed. |
| KbMerge.KbIndex.Values | src/winshield_scanner.py:284 | There is one entry per record, and the entries are exactly the records' values. |
| KbMerge.ValuesOrder | src/winshield_scanner.py:284-326 | In a well-formed index the entries come in strictly increasing KB order, so the output's sort by KB leaves them unchanged. |
| SupersedenceGraph.AddEdges | src/winshield_scanner.py:136-137 | Adds the olds of one entry to the KB's successor set. The KB becomes a key only when it has olds. |
| SupersedenceGraph.SupersedesMapKeys | src/winshield_scanner.py:134-137 | A KB is a key of `supersedes_map` exactly when one of its records supersedes something. |
| SupersedenceGraph.SupersedesMapSucc | src/winshield_scanner.py:134-137 | A KB's successors are exactly the KBs its records list. |
| SupersedenceGraph.SupersedenceSpec | src/winshield_scanner.py:139-155 | `logical_present` is the installed KBs plus everything an installed KB reaches by one or more edges. A KB is a key of `superseded_by` exactly when some installed KB reaches it. Its entry is the non-empty, strictly sorted list of exactly those roots, and every key is present. |
| SupersedenceGraph.RootsOfAttributed | src/winshield_scanner.py:142-153 | After the walks, each attributed KB carries exactly the roots that reach it. |
| SupersedenceGraph.SortedAttribution | src/winshield_scanner.py:155 | Sorting each attribution set gives the returned `superseded_by` map. |
| SupersedenceGraph.SingleRoot | src/winshield_scanner.py:142-153 | With one installed root, the covered KBs are the ones it reaches, each attributed to that root alone. |
| SupersedenceGraph.CycleAttribution | src/winshield_scanner.py:142-155 | In a two-KB cycle with one KB installed, both KBs are present, and the installed KB is listed in its own `superseded_by` entry. |
| Supersedence.BuildSupersedesMap | src/winshield_scanner.py:132-137 | The first loop builds `SupersedesMap`. |
| Supersedence.PushTargets | src/winshield_scanner.py:148-153 | The `for old in ...` loop visits exactly the successors of the popped KB. It marks them present and attributed to the root, and pushes the unseen ones. |
| Supersedence.WalkFrom | src/winshield_scanner.py:143-153 | One `while stack` walk terminates, on cyclic graphs too. It adds exactly the KBs the root reaches, and attributes those KBs and no others to the root. |
| Supersedence.AttributeAll | src/winshield_scanner.py:139-153 | After the walks over all installed roots, presence is `LogicalPresent` and the attribution sets are exactly the reaching roots. |
| Supersedence.ComputeSupersedence | src/winshield_scanner.py:127-155 | `compute_supersedence` returns `LogicalPresent` and `SupersededBy` of the supersedes map. |
| Correlation.ExpectedKeys | src/winshield_scanner.py:284-294 | For the finalised index, `expected` is exactly the set of its keys. |
| Correlation.MissingKbs | src/winshield_scanner.py:295 | The missing list is strictly sorted and holds exactly the expected KBs that are not present. |
| Correlation.MissingSpec | src/winshield_scanner.py:294-295 | Every missing KB is expected, not installed, and reached from no installed KB. Every expected KB is either missing or present. |
| Correlation.StatusOf | src/winshield_scanner.py:205-211 | The status is Installed if and only if the KB is installed. It is Superseded if and only if the KB is present and not installed, and otherwise Missing. A Superseded status carries the KB's `superseded_by` entry. |
| Correlation.Join | src/winshield_scanner.py:209 | The joined text starts with the first part and ends with the last. Its length is the parts' total length plus one separator fewer than there are parts. "" results when there are no parts. |
| Correlation.StatusText | src/winshield_scanner.py:208-209 | The text starts with "Superseded" exactly for the superseded status. It lists the roots, joined by ", ", in parentheses when there are any. |
| Correlation.StatusSpec | src/winshield_scanner.py:205-211 | The status is Installed exactly when the KB is installed. It is Missing exactly when the KB is not installed and no installed KB reaches it. A Superseded status lists exactly the reaching roots, sorted. |
| Correlation.IndexOfKeys | src/winshield_scanner.py:167-170 | `kb_index` has a key exactly for each non-empty KB that some record names. |
| Correlation.IndexOfLast | src/winshield_scanner.py:167-170 | A KB's index entry is its last record. |
| Correlation.BuildKbIndex | src/winshield_scanner.py:167-170 | The loop builds `IndexOf`. |
| Correlation.AllKbs | src/winshield_scanner.py:173 | `all_kbs` is strictly sorted and is the union of the indexed, installed and present KBs. |
| Correlation.RowOf | src/winshield_scanner.py:191-211 | The row carries its KB and `StatusOf` that KB. A KB with a record shows that record's type label, months and CVEs. |
| Correlation.Table | src/winshield_scanner.py:173-211 | The rows come in strictly increasing KB order, and each has the status `StatusOf` gives its KB. |
| Correlation.TableOrder | src/winshield_scanner.py:173-211 | The rows come in strictly increasing KB order. Each row has the status `StatusOf` gives its KB. |
| Correlation.TableKbs | src/winshield_scanner.py:173-190 | There is one row per KB that has a record, is installed or is present. |
| Correlation.TableUnmapped | src/winshield_scanner.py:191-203 | A KB without a record gets type "Unmapped" and no months or CVEs. With finalised records, a row is "Unmapped" exactly when its KB has no record. |
| Text.Strip | src/winshield_installer.py:74 | `strip()` drops only white space from the two ends, leaving a middle part that neither starts nor ends with white space. |
| Ordering.SortedSet | src/winshield_scanner.py:287-289 | `sorted(set)` is strictly increasing, holds exactly the set's elements, and has the set's size. |
| Ordering.SortedUnique | src/winshield_scanner.py:287-289 | Two strictly sorted lists with the same elements are equal, so sorting a set has one answer. |
| Ordering.SortedDistinct | src/winshield_scanner.py:287-289 | `sorted(set(xs))` is strictly increasing and holds exactly the values of `xs`. |
| Constraints.WindowsGen | src/winshield_downloader.py:89-94 | The generation is "", "windows 10" or "windows 11". "windows 11" wins when both appear in the lower-cased name. |
| Constraints.CatalogArch | src/winshield_downloader.py:96-103 | The bucket is x64, arm64 or x86. It is arm64 exactly when the lower-cased architecture contains "arm64" and is not "x64" or "amd64". It is x86 exactly for "x86" and "32-bit". Everything else defaults to x64. |
| Constraints.BuildMajor | src/winshield_downloader.py:87 | `build_major` is a prefix of the build with no "." in it. It ends at the first "." when there is one, and is the whole build otherwise. |
| Constraints.BuildConstraints | src/winshield_downloader.py:79-110 | The generation is "", "windows 10" or "windows 11", and the bucket is x64, arm64 or x86. The display version neither starts nor ends with white space. The build major is a prefix of the build with no ".". |
| Constraints.ArchBuckets | src/winshield_downloader.py:96-103 | "AMD64" goes to x64, "ARM64" to arm64, "32-bit" to x86, and "" to x64. |
| MissingList.NormalizeKb | src/winshield_downloader.py:144 | The normalised id is no longer than the input. It has no white space at either end and no lower-case ASCII letter. |
| MissingList.TypeIndexKeys | src/winshield_downloader.py:138-140 | The index has a key exactly for the upper-cased KB of each record that has a KB. |
| MissingList.TypeIndexLast | src/winshield_downloader.py:138-140 | A key maps to the update type of the last record for it. |
| MissingList.TypeLabel | src/winshield_downloader.py:148 | The label is never empty. It is the indexed update type when that is non-empty, and "Unknown" exactly when there is none. |
| MissingList.NonBlankPositions | src/winshield_downloader.py:144-146 | The positions are increasing and in range, and hold exactly the non-blank ids. |
| MissingList.ItemsAt | src/winshield_downloader.py:142-151 | Item j is the j-th non-blank id with its label. |
| MissingList.MissingItems | src/winshield_downloader.py:142-151 | There are at most as many items as missing KBs. Every item has a non-blank id and a non-empty label. |
| MissingList.MissingItemsSpec | src/winshield_downloader.py:142-151 | The items follow the input order. Exactly the KBs whose stripped, upper-cased id is blank are dropped, and each item carries that id and its label. |
| MissingList.BuildMissingList | src/winshield_downloader.py:132-151 | The loop builds `MissingItems` over the index of the scan result's records. |
| Catalog.Accept | src/winshield_downloader.py:165-187 | A kept row has at least 8 cells. It yields an update id of 36 hex digits or dashes, and the title of cell 1. |
| Catalog.AcceptSpec | src/winshield_downloader.py:165-187 | A row is accepted exactly when its stripped id contains "_R", the part before the first "_R" is 36 hex digits or dashes, and the row has at least 8 cells. The candidate takes that id and cells 1 to 6. |
| Catalog.CandidatesMember | src/winshield_downloader.py:164-187 | A candidate is in the list exactly when some row is accepted as it. There are never more candidates than rows. |
| Catalog.CandidatesIds | src/winshield_downloader.py:169-171 | Every candidate's update id has the 36-character shape. |
| Catalog.ParseSearchCandidates | src/winshield_downloader.py:158-189 | No results table gives no candidates. Otherwise the loop keeps the accepted rows in order. |
| Catalog.DialogPayload | src/winshield_downloader.py:270 | The payload is 57 + 2·\|id\| characters long and carries the id at `uidInfo` and at `updateID`. |
| Catalog.DialogPayloadInjective | src/winshield_downloader.py:268-271 | Different update ids give different payloads. |
| Catalog.FindAll | src/winshield_downloader.py:277-281 | Every match is at least 12 characters long: a scheme, at least one character, and an extension. |
| Catalog.FindAllShape | src/winshield_downloader.py:277-281 | Every match starts with "http://" or "https://" in any case, has no `"`, and has a ".msu" or ".cab" in it. |
| Catalog.Dedup | src/winshield_downloader.py:283-291 | The output is never longer than the matches. It is empty exactly when there were no matches. |
| Catalog.DedupMember | src/winshield_downloader.py:283-291 | The output holds exactly the URLs that were matched. |
| Catalog.DedupDistinct | src/winshield_downloader.py:283-291 | The output is duplicate-free. |
| Catalog.DedupOrder | src/winshield_downloader.py:283-291 | The output is ordered by each URL's first occurrence among the matches. |
| Catalog.ExtractDownloadUrls | src/winshield_downloader.py:274-291 | The `seen`/`out` loop computes `Dedup` of the matches. |
| Catalog.Filename | src/winshield_downloader.py:297 | The file name has no "/" and no "?". It is a prefix of the part after the last "/". |
| Scoring.BuildSearchFrom | src/winshield_downloader.py:239 | Finds the leftmost "(", whitespace, five digits, "." match. A match there is real, and there is none before it. |
| Scoring.Score | src/winshield_downloader.py:192-243 | The score is -10000 exactly when one of the hard exclusions holds for the lower-cased title. Otherwise it lies in [30, 150]. |
| Scoring.ScoreCandidate | src/winshield_downloader.py:192-243 | A rule-by-rule evaluation with early returns. It equals `Score`: -10000 for an excluded title, else 50 plus the generation, architecture, version and build terms. |
| Scoring.KbAbsentExcluded | src/winshield_downloader.py:195-199 | A title without the lower-cased KB id scores exactly -10000, whatever the constraints. |
| Scoring.HardExclusions | src/winshield_downloader.py:202-229 | A 10/11 generation mismatch, "server" under a known generation, or a rival architecture marker each give exactly -10000. |
| Scoring.SoftTerms | src/winshield_downloader.py:231-241 | The version term is +25, -15 or 0, and -15 only when the version is absent and a yyHn release is named. The build term is +10, -5 or 0, and 0 without a "(ddddd." group. |
| Scoring.ScoreRange | src/winshield_downloader.py:195-243 | A non-excluded score lies in [30, 150]. A score is negative exactly when the candidate is excluded, and is then exactly -10000. |
| Scoring.X86KeepsThirtyTwoBit | src/winshield_downloader.py:225-229 | On an x86 baseline "32-bit" excludes nothing. |
| Scoring.X64RejectsThirtyTwoBit | src/winshield_downloader.py:213-215 | On an x64 baseline "32-bit" is a rival marker. |
| Selection.ScoreAll | src/winshield_downloader.py:253 | Every candidate is paired, in order, with a score. The score is -10000 exactly when the candidate is excluded, and otherwise lies in [30, 150]. |
| Selection.NonNegative | src/winshield_downloader.py:254 | Keeps exactly the pairs with a score of at least 0. It is empty exactly when every score is negative. |
| Selection.SortDesc | src/winshield_downloader.py:259 | The sort keeps the length. Its order, permutation and stability are `SortDescSpec`. |
| Selection.SortDescSpec | src/winshield_downloader.py:259 | The sort is descending by score and a permutation. It is stable: the pairs of each score keep their input order. |
| Selection.SortDescHead | src/winshield_downloader.py:259-260 | The head of the sorted list is the earliest pair of maximal score. |
| Selection.NonNegativeBest | src/winshield_downloader.py:254-260 | Filtering out negative scores does not change the earliest maximal pair, when its score is at least 0. |
| Selection.ChooseFrom | src/winshield_downloader.py:256-265 | Exactly one of the candidate and the reason is present. |
| Selection.ChooseFromNoMatch | src/winshield_downloader.py:256-257 | The reason is "No candidate matched ..." exactly when every score is negative. |
| Selection.ChooseFromBest | src/winshield_downloader.py:259-265 | With an earliest-maximal pair of score s ≥ 0: below 90 the result is the "Ambiguous ..." reason carrying s, and otherwise it is that pair's candidate. |
| Selection.ChooseBestCandidate | src/winshield_downloader.py:246-265 | Exactly one of the candidate and the reason is present. |
| Selection.ChooseNoMatch | src/winshield_downloader.py:253-257 | The no-match reason comes exactly when every candidate scores below 0. |
| Selection.ChooseBest | src/winshield_downloader.py:253-265 | When candidate k has the maximal score, earliest among ties, and that score s is at least 0: s < 90 gives the ambiguous reason with s, and otherwise candidate k is chosen. |
| Decimal.NatToString | src/winshield_downloader.py:263 | `str(n)` is non-empty, all digits, and has no leading zero. |
| Decimal.DecimalRoundTrip | src/winshield_installer.py:79 | `int(str(n)) == n`. |
| Installer.Ext | src/winshield_installer.py:40 | The extension is empty, or a suffix starting with "." that begins after the last separator and holds no other ".". |
| Installer.PackagesMember | src/winshield_installer.py:35-41 | A path is kept exactly when it is the joined path of a listed regular file whose lower-cased extension is ".msu" or ".cab". |
| Installer.SortByKey | src/winshield_installer.py:43 | The sort is a permutation of the paths. |
| Installer.SortByKeySpec | src/winshield_installer.py:43 | The sort orders the paths by lower-cased basename and is a permutation. It is stable: paths with the same key keep their listing order, as with `sorted`. |
| Installer.FindPackages | src/winshield_installer.py:31-43 | The loop filters in listing order, then sorts. |
| Installer.ExtractKbLabel | src/winshield_installer.py:46-49 | Without a match the label is the file name. With one, it is 6 to 10 characters long and has no lower-case ASCII letter. |
| Installer.KbMatchShape | src/winshield_installer.py:48 | A match is "KB" in either case followed by its digits, taken greedily up to 8. |
| Installer.LeftmostMatch | src/winshield_installer.py:48 | The leftmost match takes 4 to 8 digits, as many as follow up to 8, and no match starts before it. |
| Installer.ExtractKbLabelNone | src/winshield_installer.py:49 | Without a match the label is the file name unchanged. |
| Installer.ExtractKbLabelFound | src/winshield_installer.py:48-49 | With a match, the label is "KB" in upper case followed by the matched digits. |
| Installer.ParseSelection | src/winshield_installer.py:74-82 | The input is invalid exactly when the stripped text is empty or not all digits. It is out of range exactly when the number is outside 1..count. Otherwise it selects number − 1. |
| Installer.MenuNumbersSelect | src/winshield_installer.py:71-82 | Typing any number the menu prints selects that package. |
| Installer.InstallerArgv | src/winshield_installer.py:90-96 | `wusa.exe chosen /quiet /norestart` exactly for a ".msu" extension in any case. Otherwise `dism.exe /online /add-package /packagepath:chosen`, quiet and without restart. |
| Installer.ExitStatus | src/winshield_installer.py:99 | The status is 0 exactly for exit codes 0 and 3010, and 1 otherwise. |
| Installer.MainPlan | src/winshield_installer.py:58-99 | `main` exits 0 only when there are no packages, and with 1 on every other stop. It runs a command only as administrator, with packages, and that command ends with `/quiet /norestart`. |
| Installer.MainPlanSpec | src/winshield_installer.py:58-99 | Without admin rights `main` stops with 1 first. With no packages it stops with 0. It runs the installer exactly for a valid selection, with that package's command and KB label. |

## Left out

- PowerShell collection, JSON loading and saving, and printing are left out. They are external processes or I/O. The baseline, the inventory and the adapter entries are inputs.
- Column padding and the "Missing" listing of `print_kb_table` and the scanner's `main` are left out. They only print.
- HTTP (`build_session`, `fetch_text`, the body of `download_file`) and file writes are left out, because they are network and file I/O.
- HTML parsing by BeautifulSoup is left out. A results row is given as its `id` attribute and the `get_text` of its cells. A missing results table is `None`.
- `datetime.now`, `strptime` and `strftime` are left out. The current month is a parameter, and months are (year, month) pairs. Formatting a month as "%Y-%b" is not modelled, so the range is a sequence of pairs.
- `input`, `is_admin`, `os.listdir`/`os.path.isfile` and `subprocess.run` are inputs:
  - the typed line;
  - an admin flag;
  - a list of (name, is-file) entries;
  - the tool's exit code.
- `src/winshield_master.py` is not part of this model. It is an interactive menu that launches the stages as processes.
- The main loop of the downloader is not part of this model. It does I/O and chains the modelled functions.
- Text.Lower, Text.Upper: `str.lower`/`str.upper` are modelled on ASCII letters only. Other characters are unchanged. Under `re.IGNORECASE` the Kelvin sign and other non-ASCII case pairs are not matched.
- Text.IsSpace: `str.strip` and the `\s` of the regular expressions both use Python's white-space set. Only `\d` and `\w` are taken as ASCII. `str.isdigit` is taken as ASCII digits, so Unicode digits that `isdigit` accepts and `int` rejects are not modelled.
- Installer.JoinPath: `os.path.join` is modelled only for a relative name without a drive. The names come from `os.listdir`, so that is the only case `find_packages` meets.
- Installer.Ext, Installer.Basename: the `ntpath` rules are modelled without drive letters.
- MissingList.NormalizeKb: `str(kb)` of a non-string KB (for example `None`, which gives "NONE") is not modelled. An absent or empty KB is "".
- KbMerge.KbIndex.Values: Python's `dict.values()` lists the records in insertion order. The model lists them in key order. The order only reaches the output through `sorted(...)` by KB, and `compute_supersedence` and the correlation table do not depend on it.
- Scoring.ScoreCandidate: `re.search(r"\b\d{2}h[12]\b")` and `re.search(r"\(\s*(\d{5})\.")` are modelled as position predicates over the lower-cased title. `\s` uses Python's white-space set, and `\d` and `\w` are taken as ASCII.
- Catalog.FindAllShape: the URL pattern is modelled as a leftmost scan that is non-overlapping and greedy. `[^"]+` extends to the last ".msu"/".cab" before the next `"`, and the optional query runs to that quote. The lemma states the shape of each match, not that the scan equals `re.findall`.
