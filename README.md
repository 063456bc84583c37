# IFP and Gamebox, modelled in Dafny

IFP is a plugin framework for interactive-fiction interpreters. An engine is built as a shared library with a header that names it and the story formats it accepts. IFP finds, loads, initialises, runs and unloads these plugins. It resolves the URL of a story, through a local cache of downloads, and chooses the engine by the preferences held in its configuration file. While a plugin runs, IFP watches its `malloc`, `open` and `fopen` calls so that everything can be released when the plugin ends. It also keeps a list of finalizers and a trace facility. Gamebox is a catalog browser built on IFP. It reads game catalogs in INI, RDF and iFiction form into a set of games and a tree of groups, and shows them page by page. `catalog.py` writes such a catalog from a list of game files.

This project models the sequential logic of those parts, one Dafny module per source file:

- **IFP**
  - `IfpUtils`: the string splitter.
  - `Recognizer`: the hex rendering used for acceptor matching.
  - `Blorb`: the header test and chunk-id packing.
  - `IfpConfig`: the configuration reader.
  - `IfpPref`: the preference list.
  - `IfpCache`: the URL cache.
  - `IfpUrl`: URL resolution.
  - `IfpPlugin`: the plugin life cycle.
  - `IfpLoader`: the plugin list.
  - `MemIntercept`: the hash table of tracked allocations.
  - `FileIntercept`: the open-file lists.
  - `Finalizer`: the finalizer list.
  - `IfpMain`: the Glk library search.
  - `IfpTracer`: trace selectors.
- **Gamebox**
  - `Vectors`: the growable vector.
  - `Utf`: the UTF-8 to ISO-8859-1 decoder, following RFC 2279, section 2.
  - `IniFile` and `IniParser`: the INI reader.
  - `XmlParsers` and `IFiction`: the RDF and iFiction readers.
  - `GameSets`: the game set.
  - `GameGroups`: the group registry.
  - `GamePages`: dates, sort order and paging.
- **Catalog tool**
  - `Catalog`: `catalog.py`.
- **Shared**
  - `Text`: small string helpers (`strcasecmp`'s sign, spans, joins).

The model follows these conventions:

- Structures that the C code updates in place are classes. Their fields are sequences, maps or arrays, and their methods carry `modifies` clauses. Each class has a validity predicate that its methods preserve.
- Pure logic becomes functions over datatypes, with lemmas relating them.
- A C pointer that may be `NULL` is an `Option`. Pointers and addresses are natural numbers.
- Strings are `seq<char>`. Each character stands for one byte.
- Calls into code outside the model are parameters of the operation that makes them. Examples are `dlopen`, `dlsym`, the regex engine, the libxml2 tree, `stat`, `getenv`, `gettimeofday` and `unlink`. Glk's `glk_exit` becomes a nondeterministic outcome.

Where verification showed that the C code does something its authors evidently did not intend, the model keeps two versions. One follows the code as written, with a lemma exhibiting the input that shows the problem. The other is corrected, and the rest of the model uses it (see "Findings"). Where the written description of the tool disagrees with the code, the model follows the code:

- `catalog.py` strips CR and LF from both ends of each line it reads, not only the trailing ones.
- Titles are cased by Python's `str.title`: a letter after a letter is lower-cased, and any other letter is upper-cased. Casing is not applied per space-separated word.
- `os.path.splitext` is that of Python 2.2, the interpreter `catalog.py` names on its first line. The extension runs from the last `.` to the end when that `.` follows the last `/`; a file name made only of a suffix, such as `/games/.z5`, has that suffix as its extension and passes the `-f` filter.

## Model

| member | source | states |
|---|---|---|
| IfpUtils.CSpanFree | src/ifp/ifp_utils.c:162 | the `strcspn` run holds no separator |
| IfpUtils.SplitString | src/ifp/ifp_utils.c:128-180 | the count loop and the copy loop produce exactly the elements of the split, and the count returned is their number |
| IfpUtils.CopyElements | src/ifp/ifp_utils.c:156-170 | the copy loop produces every element except a final empty one |
| IfpUtils.CopyElement | src/ifp/ifp_utils.c:162-168 | one round copies the next element and moves past it and past the separator ending it, if any |
| IfpUtils.FieldsAtEnd | src/ifp/ifp_utils.c:172-177 | past a final separator there is one empty element |
| IfpUtils.FieldCount | src/ifp/ifp_utils.c:143-148 | a suffix splits into one more element than it has separators |
| IfpUtils.EmptySplit | src/ifp/ifp_utils.c:135-140 | the empty string splits into no elements |
| IfpUtils.SplitCount | src/ifp/ifp_utils.c:143-148 | a non-empty string has one more element than separators |
| IfpUtils.FieldsFree | src/ifp/ifp_utils.c:162-166 | no element of a suffix holds the separator |
| IfpUtils.FieldsJoin | src/ifp/ifp_utils.c:156-177 | joining the elements of a suffix with the separator gives the suffix back |
| IfpUtils.SplitJoin | src/ifp/ifp_utils.c:128-180 | joining the elements with the separator gives the string back, empty elements included, and no element holds the separator |
| IfpUtils.TrailingSeparator | src/ifp/ifp_utils.c:172-177 | a string ending in the separator has a final empty element |
| IfpUtils.OccurrencesAppend | src/ifp/ifp_utils.c:143-148 | separators counted over two parts add up |
| Recognizer.DigitRoundTrip | src/ifp/ifp_recognizer.c:107-108 | each hex digit written reads back as its value |
| Recognizer.Render | src/ifp/ifp_recognizer.c:97-110 | the `strcat` loop builds exactly the rendering of the buffer |
| Recognizer.MatchString | src/ifp/ifp_recognizer.c:37-68 | a pattern that does not compile matches nothing; otherwise the regex engine decides |
| Recognizer.MatchBinary | src/ifp/ifp_recognizer.c:87-115 | the pattern is matched against the rendering of the buffer |
| Recognizer.RenderingLength | src/ifp/ifp_recognizer.c:97-110 | no bytes render as `""`; n > 0 bytes render as 3n-1 characters, which fit with their terminator in the allocation |
| Recognizer.RenderingAt | src/ifp/ifp_recognizer.c:103-110 | byte k is two lower-case hex digits, high nibble first, at position 3k, with one space before it unless it is first |
| Recognizer.RenderingAlphabet | src/ifp/ifp_recognizer.c:103-110 | the rendering holds only lower-case hex digits and single separating spaces, none leading or trailing |
| Recognizer.RenderingRoundTrip | src/ifp/ifp_recognizer.c:97-110 | reading the rendering back gives the buffer: no information is lost |
| Recognizer.ByteRoundTrip | src/ifp/ifp_recognizer.c:107-108 | the two digits at position 3k read back as byte k |
| Blorb.BlorbHeader | src/ifp/ifp_blorb.c:37-56 | a file is Blorb exactly when twelve bytes are read, the first four are `FORM` and bytes 8 to 11 are `IFRS` |
| Blorb.ShortReadIsNotBlorb | src/ifp/ifp_blorb.c:47-52 | a read of fewer than twelve bytes is never Blorb |
| Blorb.OnlyFormAndIfrsMatter | src/ifp/ifp_blorb.c:54-55 | bytes 4 to 7 and anything after the header do not affect the test |
| Blorb.Step | src/ifp/ifp_blorb.c:118-122 | each round of the loop stores the low byte of what is left of the type and shifts it right by a byte |
| Blorb.IdToString | src/ifp/ifp_blorb.c:107-127 | the string is the four bytes of the type, most significant first, NUL-terminated at index 4 |
| Blorb.IdRoundTrip | src/ifp/ifp_blorb.c:107-127 | repacking the four characters big-endian gives back the type |
| Blorb.BytesRoundTrip | src/ifp/ifp_blorb.c:107-127 | every four bytes are the string of exactly one type |
| Blorb.BlorbStartsWithForm | src/ifp/ifp_blorb.c:54 | the first four bytes of a Blorb file, read as a chunk type, render as `FORM` |
| IfpConfig.ParseConfig | src/ifp/ifp_config.c:390-452 | the parse fails exactly when some line is neither a comment, a section header nor a property pair; otherwise it yields the document the line grammar describes |
| IfpConfig.SplitSectionName | src/ifp/ifp_config.c:506-517 | a section name splits at its first `-` into a dash-free engine name and a version; without a `-` the version is the wildcard and the name is the whole section name |
| IfpConfig.SplitIsEngineOf | src/ifp/ifp_config.c:506-517 | any split meeting those conditions is the one the specification function gives: the split is unique |
| IfpConfig.Requests | src/ifp/ifp_config.c:529-539 | one registration per option piece, in order, each for the section's engine name and version |
| IfpConfig.SettingsOf | src/ifp/ifp_config.c:471-497 | each of the four global settings is taken when the property is present, `cache_limit` and `url_timeout` through `atoi` |
| IfpConfig.Handle | src/ifp/ifp_config.c:461-546 | the settings are those of the global properties, and the preference list is the old one after every section's registrations in order; its lock is untouched |
| IfpConfig.HandleSection | src/ifp/ifp_config.c:500-545 | one section adds exactly its own option registrations |
| IfpConfig.RegisterAll | src/ifp/ifp_config.c:533-539 | the loop registers each option piece in order |
| IfpConfig.ReadonlyUnchanged | src/ifp/ifp_config.c:533-539 | a locked preference list takes no registrations |
| IfpConfig.RegisteredAllExtends | src/ifp/ifp_config.c:533-539 | registering only appends: the old list is a prefix of the new |
| IfpConfig.RegisteredAllCovers | src/ifp/ifp_config.c:533-539 | after registering into an unlocked list, every request is matched by some entry |
| IfpConfig.RegisteredAllAppend | src/ifp/ifp_config.c:500-545 | registering two runs one after the other is registering their concatenation |
| IfpPref.MatchEntryAsWritten | src/ifp/ifp_pref.c:176-187 | the C test is undefined exactly when a non-wildcard name meets a stored `NULL` name, or the names match and a non-wildcard version meets a stored `NULL` version |
| IfpPref.MatchEntryAgrees | src/ifp/ifp_pref.c:176-187 | wherever the C test is defined, the corrected test gives the same answer |
| IfpPref.VersionAfterWildcardIsUndefined | src/ifp/ifp_pref.c:176-187 | registering `(git, 1.2, q)` after `(git, NULL, p)` makes the C duplicate scan compare with a `NULL` version |
| IfpPref.WildcardMatchesAll | src/ifp/ifp_pref.c:181-186 | a query made only of wildcards matches every entry |
| IfpPref.MatchesItself | src/ifp/ifp_pref.c:181-186 | an entry matches the query made from its own fields |
| IfpPref.Matching | src/ifp/ifp_pref.c:374-378 | a plugin has no more matching options than there are entries |
| IfpPref.Without | src/ifp/ifp_pref.c:216-242 | unregistering never grows the list |
| IfpPref.WithoutRemovesMatches | src/ifp/ifp_pref.c:216-242 | after unregistering no entry matches the query |
| IfpPref.WithoutKeepsOthers | src/ifp/ifp_pref.c:216-242 | every entry that does not match is kept, and nothing new appears |
| IfpPref.WithoutIdempotent | src/ifp/ifp_pref.c:198-243 | unregistering the same query twice removes nothing more |
| IfpPref.WildcardEntryApplies | src/ifp/ifp_pref.c:336-349 | an entry with wildcard name and version passes its option to every plugin |
| IfpPref.MatchingSound | src/ifp/ifp_pref.c:336-349 | every option passed to a plugin comes from an entry that matches the plugin |
| IfpPref.Prefs.constructor | src/ifp/ifp_pref.c:50-54 | the list starts empty and unlocked |
| IfpPref.Prefs.Register | src/ifp/ifp_pref.c:254-328 | a registration succeeds exactly when the list is unlocked, the preference is not `NULL` and no entry already matches; a success appends the entry at the tail, a refusal changes nothing |
| IfpPref.Prefs.Unregister | src/ifp/ifp_pref.c:198-243 | an unlocked list loses exactly its matching entries, in order; a locked list is left alone |
| IfpPref.Prefs.UseForeignData | src/ifp/ifp_pref.c:83-116 | the list becomes the one handed in and is locked |
| IfpPref.Prefs.CreateStartupData | src/ifp/ifp_pref.c:359-428 | `argv` is the engine name, the matching options in list order, the file name and `NULL`; `argc` counts all but the `NULL` |
| IfpPref.CountMatches | src/ifp/ifp_pref.c:372-378 | the count is the number of entries matching the plugin |
| IfpPref.FillOptions | src/ifp/ifp_pref.c:398-409 | after the loop `args[1..]` holds the matching options in list order and the index is one past them |
| IfpPref.AddOption | src/ifp/ifp_pref.c:400-409 | one round of the loop keeps the filled part equal to the options of the entries seen so far, within the array |
| IfpPref.MatchingPrefix | src/ifp/ifp_pref.c:385 | the entries seen so far never have more matches than the whole list, so the array sized from the count is never overrun |
| IfpCache.Weight | src/ifp/ifp_cache.c:323-357 | the weight of an entry always lies between 0 and `INT_MAX` |
| IfpCache.FreshEntryWeighsMost | src/ifp/ifp_cache.c:332-353 | an entry stamped now or in the future has the greatest weight, `INT_MAX` |
| IfpCache.OlderIsLighter | src/ifp/ifp_cache.c:332-353 | of two entries used equally often, the older is no heavier |
| IfpCache.MoreUsedIsHeavier | src/ifp/ifp_cache.c:345-353 | of two entries of the same age, the more used is no lighter |
| IfpCache.Find | src/ifp/ifp_cache.c:160-178 | the lookup finds the first entry for the URL, and misses only when there is none |
| IfpCache.Without | src/ifp/ifp_cache.c:282-307 | removal keeps exactly the entries for other URLs |
| IfpCache.Target | src/ifp/ifp_cache.c:385-395 | the scavenging target, when there is one, is an unreferenced entry |
| IfpCache.TargetIsLightest | src/ifp/ifp_cache.c:385-400 | there is no target exactly when every entry is referenced; otherwise no unreferenced entry is lighter than the target |
| IfpCache.WithoutShrinks | src/ifp/ifp_cache.c:405 | removing the target shortens the list and keeps it well formed, so the scavenging loop ends |
| IfpCache.WithoutLength | src/ifp/ifp_cache.c:282-307 | removal never grows the list, and shrinks it when the URL is present |
| IfpCache.WithoutWellFormed | src/ifp/ifp_cache.c:282-307 | removal keeps URLs unique and every use count positive |
| IfpCache.ScavengedKeepsReferenced | src/ifp/ifp_cache.c:367-407 | scavenging only removes entries, and never a referenced one |
| IfpCache.ScavengedFits | src/ifp/ifp_cache.c:381-401 | after scavenging the cache is within its limit, or every entry left is referenced |
| IfpCache.ScavengedFilesRemoved | src/ifp/ifp_cache.c:381-405 | scavenging deletes one data file per entry it removes, and a file is deleted exactly when it belongs to a removed entry |
| IfpCache.WithinLimitKept | src/ifp/ifp_cache.c:381 | a cache already within its limit is left alone |
| IfpCache.DataFilesCover | src/ifp/ifp_cache.c:141-150 | the cleanup deletes one file per entry, and every entry's file |
| IfpCache.Cache.constructor | src/ifp/ifp_cache.c:42-61 | the cache starts empty with the default limit of ten megabytes |
| IfpCache.Cache.SetLimit | src/ifp/ifp_cache.c:72-83 | a negative limit is rejected and the old one kept; otherwise it becomes the limit |
| IfpCache.Cache.CacheSize | src/ifp/ifp_cache.c:112-124 | the size is the sum of the entries' file sizes |
| IfpCache.Cache.Lookup | src/ifp/ifp_cache.c:160-178 | the walk from the head returns the first entry for the URL |
| IfpCache.Cache.FindEntry | src/ifp/ifp_cache.c:212-234 | a hit returns the data file and raises that entry's reference and use counts by one and stamps it now; a miss changes nothing |
| IfpCache.Cache.ReleaseEntry | src/ifp/ifp_cache.c:243-264 | the entry's reference count goes down by one but never below zero; nothing else changes |
| IfpCache.Cache.RemoveEntry | src/ifp/ifp_cache.c:274-308 | every entry for the URL is unlinked and its data file deleted; the others keep their order |
| IfpCache.Cache.FinalizeCleanup | src/ifp/ifp_cache.c:134-151 | every data file is deleted, head first, and the list emptied |
| IfpCache.Cache.SelectTarget | src/ifp/ifp_cache.c:385-395 | the selection loop picks the scavenging target |
| IfpCache.Cache.Scavenge | src/ifp/ifp_cache.c:367-407 | the list becomes the scavenged list for the effective limit, the environment's when set, and the data files of the removed entries are deleted in the order of removal |
| IfpCache.Cache.AddEntry | src/ifp/ifp_cache.c:420-468 | the add succeeds exactly when the URL is not cached and `stat` sized the file; a success puts a new entry with one reference and one use at the head, then scavenges, deleting the data files of the entries scavenged; a refusal changes nothing |
| IfpCache.AddKeepsWellFormed | src/ifp/ifp_cache.c:437-466 | adding an uncached URL keeps the list well formed |
| IfpCache.AddedEntrySurvives | src/ifp/ifp_cache.c:460-467 | the new entry is referenced, so its own scavenge keeps it |
| IfpUrl.SchemeOfUrl | src/ifp/ifp_url.c:884-888 | a URL that starts with letters and a colon splits at that colon into scheme and hierarchical part |
| IfpUrl.SchemeSplits | src/ifp/ifp_url.c:884-894 | every string either splits at a colon after a run of letters or is taken whole as the hierarchical part of a `file:` URL |
| IfpUrl.LocalTarget | src/ifp/ifp_url.c:757-775 | the local path of a `file:` URL is always a suffix of its hierarchical part |
| IfpUrl.EmptyHostIsLocal | src/ifp/ifp_url.c:759-760 | `file:///p` names the local file `/p` |
| IfpUrl.LocalhostIsLocal | src/ifp/ifp_url.c:761-763 | `file://localhost/p` names the local file `/p` |
| IfpUrl.OtherHostIsRemote | src/ifp/ifp_url.c:764-769 | a `file:` URL with any other host is no local file: it is fetched by FTP |
| IfpUrl.DisguisedFtpMissesItsOwnEntry | src/ifp/ifp_url.c:704-728 | as written, a `file:` URL with a remote host is looked up in the cache under a key other than its own string, which is the key its download is cached under |
| IfpUrl.DisguisedPlan | src/ifp/ifp_url.c:704-728 | as written, such a URL is fetched by FTP on port 21 and looked up as `ftp:` plus its hierarchical part |
| IfpUrl.PlanOf | src/ifp/ifp_url.c:897-936 | every fetch is looked up in the cache under the URL's own string |
| IfpUrl.PlanAgrees | src/ifp/ifp_url.c:897-936 | the corrected plan differs from the code as written only in the cache key of a fetch |
| IfpUrl.SchemeCaseIgnored | src/ifp/ifp_url.c:897-936 | schemes that differ only in case lead to the same kind of plan |
| IfpUrl.ScanHost | src/ifp/ifp_url.c:618-622 | the host scan reads a non-empty host right after `//` |
| IfpUrl.ScanInt | src/ifp/ifp_url.c:618-619 | the `%d` scan consumes at least one character when it succeeds |
| IfpUrl.ScanWord | src/ifp/ifp_url.c:618-622 | the `%s` scan reads a non-empty word with no white space |
| IfpUrl.ParseRemote | src/ifp/ifp_url.c:604-641 | a parse that succeeds has a port from 1 to 65535, a non-empty host of host characters that follows `//`, and a non-empty document without white space |
| IfpUrl.HostOf | src/ifp/ifp_url.c:618-622 | both forms of the parse read the host that follows `//` |
| IfpUrl.HostScan | src/ifp/ifp_url.c:618-622 | the host scan stops at the first character that cannot be in a host |
| IfpUrl.DocumentScan | src/ifp/ifp_url.c:618-622 | the document is read to the end of the string |
| IfpUrl.PortlessRoundTrip | src/ifp/ifp_url.c:622-632 | `//host/document` parses back to its host, the default port and its document |
| IfpUrl.PortRoundTrip | src/ifp/ifp_url.c:618-641 | `//host:port/document` parses back to its pieces when the port is in range and fails with `EINVAL` otherwise |
| IfpUrl.ParseWithPort | src/ifp/ifp_url.c:618-641 | when the form with a port matches, it decides the parse, subject to the port range |
| IfpUrl.WithPortRoundTrip | src/ifp/ifp_url.c:618-619 | the form with a port reads back the host, the port's digits and the document |
| IfpUrl.DefaultPageMalformed | src/ifp/ifp_url.c:618-629 | `//host/`, a server's default page, is malformed because `%s` needs at least one character |
| IfpUrl.TmpFiles.constructor | src/ifp/ifp_url.c:94 | the temporary file list starts empty |
| IfpUrl.TmpFiles.Add | src/ifp/ifp_url.c:235-254 | the file is pushed on the head of the list |
| IfpUrl.TmpFiles.Delete | src/ifp/ifp_url.c:262-290 | every entry for the file is dropped, the others kept in order; no file is deleted from disk |
| IfpUrl.TmpFiles.FinalizeCleanup | src/ifp/ifp_url.c:211-226 | every listed file is deleted, head first, and the list emptied |
| IfpUrl.Dropped | src/ifp/ifp_url.c:270-289 | the list keeps exactly the entries for other files |
| IfpUrl.AddThenDelete | src/ifp/ifp_url.c:235-290 | adding then deleting a file that was not listed restores the list |
| IfpUrl.DroppedPush | src/ifp/ifp_url.c:235-290 | dropping a file just pushed on the list is dropping it from the list as it was |
| IfpUrl.Ended | src/ifp/ifp_url.c:978-982 | the poll found is the first that sees `SIGIO` raised and a status other than `EAGAIN`, and none is found exactly when no poll does |
| IfpUrl.PauseTimeout.constructor | src/ifp/ifp_url.c:42 | the pause timeout starts at 250000 microseconds |
| IfpUrl.PauseTimeout.Set | src/ifp/ifp_url.c:119-130 | a negative timeout is rejected and the old one kept |
| IfpUrl.Url.constructor | src/ifp/ifp_url.c:159-174 | a new URL is unresolved and has no kind |
| IfpUrl.Url.Destroy | src/ifp/ifp_url.c:183-200 | destroying succeeds exactly when the URL is unresolved |
| IfpUrl.Url.UrlPath | src/ifp/ifp_url.c:300-312 | the URL string is reported exactly while the URL is resolving or resolved |
| IfpUrl.Url.DataFile | src/ifp/ifp_url.c:314-326 | the data file is reported exactly when the URL is resolved |
| IfpUrl.Url.StatusAsync | src/ifp/ifp_url.c:540-544 | the status is `EAGAIN` until the URL is resolved |
| IfpUrl.Url.Scrub | src/ifp/ifp_url.c:351-404 | the URL ends unresolved; a download under way has its file dropped from the list and deleted; a resolved remote URL releases its cache entry; nothing else changes |
| IfpUrl.Url.PollResolved | src/ifp/ifp_url.c:470-506 | the URL is ready exactly when it was resolved, or `SIGIO` was raised and its download is no longer in progress; a download that ends records its status, hands its file to the cache and drops it from the list; a URL not ready changes nothing |
| IfpUrl.Url.PollDownload | src/ifp/ifp_url.c:470-506 | a poll of a download under way ends it exactly when `SIGIO` was raised and the status is not `EAGAIN`; the URL is then resolved with that status and its file leaves the list |
| IfpUrl.Url.AwaitDownload | src/ifp/ifp_url.c:978-982 | the loop stops at the first poll that sees the download end, which resolves the URL with that poll's status; with no such poll the URL stays resolving and the list unchanged |
| IfpUrl.Url.ResolveAsync | src/ifp/ifp_url.c:853-950 | without the signal handler nothing resolves; a local file resolves exactly when it is readable; an unsupported scheme fails with `ENOTSUP`; a fetch that hits the cache resolves at once, and otherwise starts exactly when the URL parses, a temporary file is made and the download starts, failing with `EINVAL` on a malformed URL; a failure changes nothing |
| IfpUrl.Url.ResolveFetch | src/ifp/ifp_url.c:900-922 | a fetch tries the cache first and otherwise starts a download, with the same outcomes |
| IfpUrl.Url.ResolveCache | src/ifp/ifp_url.c:553-579 | a cache hit resolves the URL to the cached file with status 0; a miss changes nothing |
| IfpUrl.Url.ResolveRemote | src/ifp/ifp_url.c:589-694 | the download is under way exactly when the URL parses, a temporary file is made and the download starts; its file is then listed; a malformed URL fails with `EINVAL`; a failure changes nothing in the URL |
| IfpUrl.Url.Resolve | src/ifp/ifp_url.c:959-995 | success means resolved with status 0; a local file succeeds exactly when readable; a fetch that hits the cache under its lookup key succeeds; a fetch that cannot start its download fails and changes nothing; a download seen to end succeeds exactly when its final status is 0, and on failure is scrubbed to unresolved; its temporary file leaves the list; while the download goes on the URL stays resolving |
| IfpUrl.NewResolve | src/ifp/ifp_url.c:1029-1045 | the new URL is returned only when resolved with status 0 or still downloading; a local file gives a URL exactly when readable; a fetch gives one on a cache hit, none when its download cannot start, and, once the download is seen to end, one exactly when its final status is 0 |
| IfpUrl.NewResolveAsync | src/ifp/ifp_url.c:1004-1020 | `NULL` exactly when resolution fails; a local file gives a URL exactly when readable; an unsupported scheme never does |
| IfpUrl.Forget | src/ifp/ifp_url.c:1054-1064 | scrubbing leaves the URL unresolved, so the destroy that follows always succeeds |
| IfpPlugin.Preferred | src/ifp/ifp_plugin.c:640-678 | the `ifpi_`-prefixed symbol is bound when the library has it, else the plain Glk symbol, else the load fails |
| IfpPlugin.Bind | src/ifp/ifp_plugin.c:539-678 | a library that binds has a header of the current version, all four interface functions and, if it exports `ifpi_chain_set_plugin_self`, the whole chain interface; it chains exactly when it exports that symbol |
| IfpPlugin.BindComplete | src/ifp/ifp_plugin.c:539-678 | a library with a current header and every required symbol binds, whatever optional symbols it lacks |
| IfpPlugin.PartialChainRefused | src/ifp/ifp_plugin.c:568-596 | a chaining library missing any other chain symbol does not load |
| IfpPlugin.AfterUnload | src/ifp/ifp_plugin.c:417-467 | unloading is a legal step; it unloads exactly the unloadable states and leaves an active plugin alone |
| IfpPlugin.AfterInitialize | src/ifp/ifp_plugin.c:841-920 | initializing is a legal step that changes only an attached plugin while no plugin is active; it ends initialized exactly when the startup code returned a non-zero status |
| IfpPlugin.AfterStart | src/ifp/ifp_plugin.c:950-969 | starting is a legal step, and the plugin runs exactly when it was initialized and no plugin was active |
| IfpPlugin.AfterReturn | src/ifp/ifp_plugin.c:974-1005 | a running plugin ends finished |
| IfpPlugin.Apply | src/ifp/ifp_plugin.c:417-1006 | every operation but a forced unload takes a legal step of the life cycle or none |
| IfpPlugin.FinishedUntilUnloaded | src/ifp/ifp_plugin.c:841-1006 | a finished plugin stays finished until unloaded, so an engine runs at most once per load |
| IfpPlugin.ExitTrap.constructor | src/ifp/ifp_plugin.c:104-105 | at first no `glk_exit` can be caught |
| IfpPlugin.Plugin.constructor | src/ifp/ifp_plugin.c:365-381 | a new plugin is unloaded |
| IfpPlugin.Plugin.GetHeader | src/ifp/ifp_plugin.c:217-229 | no header while unloaded; otherwise the bound header, of the current version |
| IfpPlugin.Plugin.GetArguments | src/ifp/ifp_plugin.c:238-250 | no arguments while unloaded; otherwise those bound at load |
| IfpPlugin.Plugin.GetFilename | src/ifp/ifp_plugin.c:259-271 | no file name while unloaded; otherwise the one loaded from |
| IfpPlugin.Plugin.CanChain | src/ifp/ifp_plugin.c:307-319 | a plugin chains exactly when it is loaded and bound `ifpi_chain_set_plugin_self` |
| IfpPlugin.Plugin.Destroy | src/ifp/ifp_plugin.c:390-407 | destruction happens exactly when the plugin is unloaded and wipes its magic number; a refusal changes nothing |
| IfpPlugin.Plugin.Unload | src/ifp/ifp_plugin.c:435-467 | the state becomes that of the unload step; the finalizer runs exactly when an attached or finished plugin has one; a refusal changes nothing |
| IfpPlugin.Plugin.ForceUnload | src/ifp/ifp_plugin.c:476-500 | whatever its state the plugin ends unloaded; the finalizer runs exactly when a loaded plugin has one |
| IfpPlugin.Plugin.Reset | src/ifp/ifp_plugin.c:461-463 | the wiped plugin is valid and unloaded |
| IfpPlugin.Plugin.Load | src/ifp/ifp_plugin.c:509-712 | a load succeeds exactly when the plugin is unloaded, `dlopen` succeeds and the library binds; success attaches it with the file name and the binding, and calls the initializer exactly when there is one; a failure changes nothing |
| IfpPlugin.Plugin.Initialize | src/ifp/ifp_plugin.c:841-920 | the state follows the initialize step and the status is the startup code's, or 0 when refused; the trap ends as it was |
| IfpPlugin.Plugin.Start | src/ifp/ifp_plugin.c:943-971 | an initialized plugin, with no plugin active, starts running and the trap is set; anything else is refused |
| IfpPlugin.Plugin.Return | src/ifp/ifp_plugin.c:974-1005 | a running plugin finishes and the trap is cleared |
| IfpPlugin.Plugin.Run | src/ifp/ifp_plugin.c:942-1006 | the plugin runs exactly when initialized with no plugin active, and then always ends finished with the trap cleared; otherwise nothing changes |
| IfpPlugin.Plugin.Cancel | src/ifp/ifp_plugin.c:1047-1064 | only a running plugin is cancelled, and the jump back finishes it; otherwise nothing changes |
| IfpPlugin.NewLoad | src/ifp/ifp_plugin.c:721-736 | a new plugin is returned exactly when the library opens and binds, attached with the file name and binding |
| IfpLoader.Put | src/ifp/ifp_loader.c:60-63 | setting one plugin's link leaves every other plugin's link as it was |
| IfpLoader.Unlink | src/ifp/ifp_loader.c:49-73 | deletion, corrected to clear the deleted plugin's own links, always leaves that plugin detached |
| IfpLoader.AppendLinked | src/ifp/ifp_loader.c:81-98 | appending a detached plugin keeps the links describing the list, with the plugin last |
| IfpLoader.UnlinkAsWrittenLinked | src/ifp/ifp_loader.c:49-73 | deleting a listed plugin as written keeps the links of the rest describing the list without it |
| IfpLoader.UnlinkEnds | src/ifp/ifp_loader.c:69-72 | after a deletion the head and tail are the first and last of the remaining list |
| IfpLoader.UnlinkLinked | src/ifp/ifp_loader.c:49-73 | the corrected deletion also keeps the rest linked, and detaches the deleted plugin |
| IfpLoader.UnlinkDetached | src/ifp/ifp_loader.c:49-73 | deleting a plugin that is neither listed nor linked changes nothing, both as written and corrected |
| IfpLoader.UnlinkKeepsDetached | src/ifp/ifp_loader.c:49-73 | deleting one plugin leaves another unlisted, detached plugin detached |
| IfpLoader.AppendKeepsDetached | src/ifp/ifp_loader.c:81-98 | appending one plugin leaves another unlisted, detached plugin detached |
| IfpLoader.StaleLinksLoseTheTail | src/ifp/ifp_loader.c:49-73 | as written, with `1, 2` listed, deleting 2, appending 3 and deleting 2 again cuts the link from 1 to 3, so the list no longer reaches its tail |
| IfpLoader.DetachedDeleteKeepsTheTail | src/ifp/ifp_loader.c:49-73 | with the corrected deletion the same sequence keeps `1, 3` linked |
| IfpLoader.DropMembers | src/ifp/ifp_loader.c:49-73 | removing a plugin from a list without repeats removes exactly that plugin |
| IfpLoader.LastIndexOf | src/ifp/ifp_loader.c:364 | `strrchr` finds the last occurrence, and none only when there is none |
| IfpLoader.DsoIsSuffix | src/ifp/ifp_loader.c:358-366 | the directory filter accepts exactly the names that end in `.so` |
| IfpLoader.DsoEntries | src/ifp/ifp_loader.c:378-379 | the filtered listing holds exactly the shared objects of the directory |
| IfpLoader.Candidates | src/ifp/ifp_loader.c:397-402 | each entry is tried as `directory/entry`, in listing order |
| IfpLoader.CoveredExtends | src/ifp/ifp_loader.c:391-408 | a file that was accounted for stays accounted for as more plugins are added |
| IfpLoader.GrewByCompose | src/ifp/ifp_loader.c:443-452 | two searches one after the other grow the list by both sets of tries |
| IfpLoader.NoClashesAppend | src/ifp/ifp_loader.c:329-344 | appending a plugin that clashes with no listed plugin keeps the list free of clashes |
| IfpLoader.NoClashesRemove | src/ifp/ifp_loader.c:488 | removing a plugin keeps the list free of clashes |
| IfpLoader.NoClashesReplace | src/ifp/ifp_loader.c:285-286 | replacing a plugin by one of the same engine under a new file name keeps the list free of clashes |
| IfpLoader.AllLoadedAppend | src/ifp/ifp_loader.c:344 | appending a loaded plugin keeps every listed plugin loaded |
| IfpLoader.AllLoadedRemove | src/ifp/ifp_loader.c:488 | removing a plugin keeps the others loaded |
| IfpLoader.Dropped | src/ifp/ifp_loader.c:488 | dropping a plugin keeps the rest loaded and free of clashes and leaves it out |
| IfpLoader.Loader.constructor | src/ifp/ifp_loader.c:40-41 | the plugin list starts empty |
| IfpLoader.Loader.Iterate | src/ifp/ifp_loader.c:107-113 | iteration starts at the head and moves to the next plugin in list order |
| IfpLoader.Loader.Count | src/ifp/ifp_loader.c:121-133 | the count is the number of listed plugins |
| IfpLoader.Loader.FindFilename | src/ifp/ifp_loader.c:307-315 | the first loop finds a plugin exactly when one is listed under the file name |
| IfpLoader.Loader.FindEngine | src/ifp/ifp_loader.c:329-341 | the second loop finds a plugin exactly when one of the same engine name and version is listed |
| IfpLoader.Loader.Add | src/ifp/ifp_loader.c:81-98 | the plugin is appended at the tail |
| IfpLoader.Loader.Delete | src/ifp/ifp_loader.c:49-73 | the plugin leaves the list and its own links are cleared; the rest keep their order |
| IfpLoader.Loader.LoadPlugin | src/ifp/ifp_loader.c:299-348 | a plugin is added exactly when its file name is not listed, the library loads and its engine is not listed; it is appended attached; otherwise the list is unchanged; the list stays free of duplicates |
| IfpLoader.Loader.LoadNew | src/ifp/ifp_loader.c:318-347 | after the file name check, a plugin is added exactly when the library loads and its engine is new |
| IfpLoader.Loader.SearchDirectory | src/ifp/ifp_loader.c:368-417 | an unreadable directory loads nothing; otherwise every `.so` entry is tried in order, each plugin added comes from one of them, every one tried is accounted for, and the count is the number added |
| IfpLoader.Loader.TryLoad | src/ifp/ifp_loader.c:404-405 | one attempt adds at most one plugin, and accounts for the file tried |
| IfpLoader.Loader.SearchElement | src/ifp/ifp_loader.c:447-451 | an empty path element is skipped; any other is searched as a directory |
| IfpLoader.Loader.SearchPath | src/ifp/ifp_loader.c:427-458 | every directory of the path is searched in order; the total counts the plugins added, each of which came from one of the files tried, and every file tried is accounted for |
| IfpLoader.Loader.Admit | src/ifp/ifp_loader.c:344 | appending a loaded plugin whose file name and engine are new keeps the list loaded and free of duplicates |
| IfpLoader.Loader.Enlist | src/ifp/ifp_loader.c:344 | appending a loaded plugin keeps the list loaded |
| IfpLoader.Loader.Dispose | src/ifp/ifp_loader.c:337-338 | an unlisted plugin that may be unloaded is destroyed; one that may not is left as it was |
| IfpLoader.Loader.Forget | src/ifp/ifp_loader.c:466-491 | a plugin is forgotten exactly when it may be unloaded; it then leaves the list and is destroyed; otherwise nothing changes |
| IfpLoader.Loader.Unlist | src/ifp/ifp_loader.c:488 | the plugin leaves the list and is detached; the rest stay loaded and distinct |
| IfpLoader.Loader.ForgetAll | src/ifp/ifp_loader.c:502-518 | when every listed plugin may be unloaded, all are destroyed, the list ends empty, and the count is how many there were |
| IfpLoader.Loader.ForgetHead | src/ifp/ifp_loader.c:511-515 | one round destroys the head and lists the rest |
| IfpLoader.Loader.ReplaceWithClone | src/ifp/ifp_loader.c:264-289 | a clone is made exactly when the copy was made and loads; the original is then detached and the clone appended; otherwise nothing changes; the list stays free of duplicates when the clone is of the original's engine |
| IfpLoader.Loader.ReplaceWith | src/ifp/ifp_loader.c:285-286 | the original leaves the list and the clone goes last |
| Finalizer.Finalizers.constructor | src/ifp/finalizer.c:28-36 | the finalizer list starts empty |
| Finalizer.Finalizers.Register | src/ifp/finalizer.c:57-74 | a failed entry allocation aborts and leaves the list alone; otherwise the finalizer is pushed on the head |
| Finalizer.Finalizers.Finalize | src/ifp/finalizer.c:93-111 | the finalizers run in list order from the head, each once, and the list ends empty |
| Finalizer.RegisterAllReverses | src/ifp/finalizer.c:57-74 | registering a sequence of finalizers puts them on the list newest first, in front of what was there |
| Finalizer.RunsInReverse | src/ifp/finalizer.c:100-104 | from an empty list, the k-th finalizer registered is the k-th from the end of the run: the reverse of registration order |
| Finalizer.EachRunsOnce | src/ifp/finalizer.c:93-111 | the run is a permutation of the registrations: each finalizer runs as often as it was registered and nothing else runs |
| Finalizer.ReversePermutes | src/ifp/finalizer.c:100-104 | reversing the list keeps its multiset of entries |
| FileIntercept.Unlink | src/ifp/file_intercept.c:95-150 | the search loop of the remove functions keeps exactly the entries that differ from the one removed, in order |
| FileIntercept.WithoutKeepsOthers | src/ifp/file_intercept.c:95-121 | after removal the entry is absent, every other entry is still listed as often as before, and the list shrank by the number of copies removed |
| FileIntercept.WithoutAppend | src/ifp/file_intercept.c:95-121 | removal from a list made of two parts is removal from each part |
| FileIntercept.PushThenWithout | src/ifp/file_intercept.c:71-121 | removing an entry that was just added undoes the add, and removes older copies too |
| FileIntercept.WithoutIdempotent | src/ifp/file_intercept.c:95-150 | removing the same entry twice is removing it once: removing an unlisted entry changes nothing |
| FileIntercept.OpenFiles.constructor | src/ifp/file_intercept.c:50-52 | both open-file lists start empty |
| FileIntercept.OpenFiles.AddFile | src/ifp/file_intercept.c:71-81 | the descriptor goes on the head of the descriptor list; the stream list is unchanged |
| FileIntercept.OpenFiles.AddStream | src/ifp/file_intercept.c:83-93 | the stream goes on the head of the stream list; the descriptor list is unchanged |
| FileIntercept.OpenFiles.RemoveFile | src/ifp/file_intercept.c:95-121 | the descriptor list loses every entry for the descriptor and keeps the rest in order |
| FileIntercept.OpenFiles.RemoveStream | src/ifp/file_intercept.c:123-150 | the stream list loses every entry for the stream and keeps the rest in order |
| FileIntercept.OpenFiles.Opened | src/ifp/file_intercept.c:166-224 | `open` (two or three arguments), `creat` and `dup` list the descriptor returned unless it is -1 |
| FileIntercept.OpenFiles.Close | src/ifp/file_intercept.c:190-200 | a successful `close` unlists the descriptor; a failed one changes nothing |
| FileIntercept.OpenFiles.Dup2 | src/ifp/file_intercept.c:226-240 | a successful `dup2` unlists the descriptor it closed and lists the one returned |
| FileIntercept.OpenFiles.Fopen | src/ifp/file_intercept.c:252-262 | a non-NULL stream from `fopen` is listed |
| FileIntercept.OpenFiles.Fdopen | src/ifp/file_intercept.c:264-278 | a successful `fdopen` moves the descriptor from the descriptor list to the stream list |
| FileIntercept.OpenFiles.Freopen | src/ifp/file_intercept.c:280-294 | a successful `freopen` replaces the closed stream by the new one at the head |
| FileIntercept.OpenFiles.Fclose | src/ifp/file_intercept.c:296-306 | `fclose` unlists the stream unless it returned EOF |
| FileIntercept.OpenFiles.Cleanup | src/ifp/file_intercept.c:315-345 | every listed descriptor is closed, head first, then every listed stream, and both lists end empty |
| FileIntercept.CloseUnlists | src/ifp/file_intercept.c:190-200 | after a close the descriptor is no longer listed and every other descriptor keeps its listing |
| FileIntercept.Dup2Lists | src/ifp/file_intercept.c:226-240 | after `dup2` the target descriptor is listed exactly when it is the descriptor returned |
| MemIntercept.MallocHash | src/ifp/mem_intercept.c:89-99 | hashing with no table is the fatal error; otherwise the result is the address's bucket, below the bucket count |
| MemIntercept.BucketSizesAscend | src/ifp/mem_intercept.c:55-65 | the prime bucket counts of the table rise strictly |
| MemIntercept.NextSizeIsSmallestAbove | src/ifp/mem_intercept.c:109-136 | the next bucket count exceeds the current one; it is the smallest listed prime above it when there is one, and twice the current count plus one past the end of the list |
| MemIntercept.NextSizeFromFacts | src/ifp/mem_intercept.c:115-122 | the scan from any position stops at the first listed prime above the current count, or at the end of the list |
| MemIntercept.NextSize | src/ifp/mem_intercept.c:109-136 | the loop returns the next bucket count |
| MemIntercept.TrackedFill | src/ifp/mem_intercept.c:243-247 | giving an address to a descriptor that held none adds exactly that address to the tracked set |
| MemIntercept.TrackedEmpty | src/ifp/mem_intercept.c:286-288 | clearing the only descriptor holding an address removes exactly that address from the tracked set |
| MemIntercept.TrackedRelink | src/ifp/mem_intercept.c:283-289 | relinking a descriptor leaves the tracked set alone |
| MemIntercept.TrackedInBucket | src/ifp/mem_intercept.c:232-238 | an address is tracked exactly when a descriptor on the list of the bucket it hashes to holds it, so the duplicate scan of one bucket is enough |
| MemIntercept.PathPush | src/ifp/mem_intercept.c:245-247 | linking a descriptor in front of a list gives a list one longer without repeats |
| MemIntercept.PathPop | src/ifp/mem_intercept.c:240-242 | taking the head off the free list leaves the rest a list |
| MemIntercept.PathCut | src/ifp/mem_intercept.c:276-284 | cutting a descriptor out through the bucket head or through its predecessor leaves a list of the other descriptors, in order |
| MemIntercept.PlaceUsed | src/ifp/mem_intercept.c:184-189 | rehashing an occupied descriptor onto the head of its bucket keeps every list well formed |
| MemIntercept.PlaceFree | src/ifp/mem_intercept.c:190-194 | putting an unoccupied descriptor on the free list keeps every list well formed |
| MemIntercept.Push | src/ifp/mem_intercept.c:240-247 | moving the free list's head onto the address's bucket keeps the table well formed, addresses distinct, and adds the address to the tracked set |
| MemIntercept.Unlink | src/ifp/mem_intercept.c:276-289 | cutting a descriptor out of its bucket and pushing it, emptied, on the free list keeps the table well formed and untracks its address |
| MemIntercept.SameAddresses | src/ifp/mem_intercept.c:198-209 | extending the pool with empty descriptors tracks the same addresses |
| MemIntercept.Place | src/ifp/mem_intercept.c:174-195 | one step of the rehash loop keeps the lists well formed and the pool's addresses unchanged |
| MemIntercept.Find | src/ifp/mem_intercept.c:232-236 | the duplicate scan finds the address exactly when a descriptor on the bucket's list holds it |
| MemIntercept.Rehashed | src/ifp/mem_intercept.c:145-210 | the rehash moves to the next bucket count, leaves a non-empty free list, keeps the table well formed, and tracks the same addresses |
| MemIntercept.Inserted | src/ifp/mem_intercept.c:230-247 | adding is fatal exactly when the address is already tracked; afterwards it is tracked and the table well formed |
| MemIntercept.UnlinkClears | src/ifp/mem_intercept.c:276-289 | after the cut no descriptor left on the bucket holds the removed address |
| MemIntercept.Unlinking | src/ifp/mem_intercept.c:267-289 | unlinking a matching descriptor untracks exactly its address and keeps the table well formed |
| MemIntercept.ScanStep | src/ifp/mem_intercept.c:263-292 | one turn of the removal walk keeps the walk's invariant and shortens the rest of the list |
| MemIntercept.Removed | src/ifp/mem_intercept.c:250-295 | the removal walk finds the address exactly when it is tracked, and untracks it |
| MemIntercept.DistinctCardinality | src/ifp/mem_intercept.c:464-471 | a walk that visits no descriptor twice frees as many addresses as it visits |
| MemIntercept.CollectChain | src/ifp/mem_intercept.c:466-470 | walking one bucket frees every address on it, keeping the freed addresses distinct |
| MemIntercept.CollectStep | src/ifp/mem_intercept.c:466-470 | the next address freed was not freed before |
| MemIntercept.Collected | src/ifp/mem_intercept.c:463-471 | the garbage collector frees every tracked address exactly once and nothing else |
| MemIntercept.MallocTable.constructor | src/ifp/mem_intercept.c:50-53 | the table starts with no buckets, no pool and no addresses |
| MemIntercept.MallocTable.Rehash | src/ifp/mem_intercept.c:145-210 | the table grows to the next bucket count and tracks the same addresses |
| MemIntercept.MallocTable.AddAddress | src/ifp/mem_intercept.c:221-248 | a rehash happens exactly when the free list is empty; adding is fatal exactly when the address is already tracked; afterwards it is tracked |
| MemIntercept.MallocTable.RemoveAddress | src/ifp/mem_intercept.c:250-295 | the error cases are no lists and an address not listed; afterwards the address is untracked |
| MemIntercept.MallocTable.GarbageCollect | src/ifp/mem_intercept.c:457-489 | every tracked address is freed once, and the table is reset to no buckets and no addresses |
| MemIntercept.MallocTable.Allocate | src/ifp/mem_intercept.c:308-330 | `malloc`, `calloc` and `strdup` add a non-NULL result; adding is fatal when it is already tracked |
| MemIntercept.MallocTable.Getcwd | src/ifp/mem_intercept.c:381-395 | `getcwd` adds its result only when the caller passed no buffer and the call succeeded |
| MemIntercept.MallocTable.Realloc | src/ifp/mem_intercept.c:338-354 | when the block moved, the old non-NULL address is removed and the new non-NULL one added; an unmoved block changes nothing |
| MemIntercept.MallocTable.Scandir | src/ifp/mem_intercept.c:403-434 | a failed `scandir` changes nothing; otherwise each non-NULL entry and then the array are added, and the call is fatal exactly when one of them is already tracked or repeats |
| MemIntercept.MallocTable.Free | src/ifp/mem_intercept.c:442-449 | a non-NULL pointer is removed before it is freed; NULL changes nothing |
| MemIntercept.FreshPointersStep | src/ifp/mem_intercept.c:421-428 | adding one more new pointer keeps the run of additions free of fatal errors |
| MemIntercept.FreshPointersStops | src/ifp/mem_intercept.c:421-428 | a pointer already tracked or repeated makes the run fatal |
| IfpMain.LibrariesOf | src/ifp/ifp_main.c:77-107 | the Glk library list is `IFP_GLK_LIBRARIES` when set, else the configured list when set, else one of the three defaults |
| IfpMain.EnvironmentOverrides | src/ifp/ifp_main.c:82-85 | with `IFP_GLK_LIBRARIES` set, nothing configured and no display or terminal setting changes the list |
| IfpMain.ConfiguredOverridesDefaults | src/ifp/ifp_main.c:88-92 | without the environment variable, a configured list is used whatever `DISPLAY` and `TERM` say |
| IfpMain.GlkSetting.constructor | src/ifp/ifp_main.c:44-45 | no list is configured at first |
| IfpMain.GlkSetting.Set | src/ifp/ifp_main.c:54-66 | the configured list becomes a copy of the argument; NULL unsets it |
| IfpMain.GlkSetting.Get | src/ifp/ifp_main.c:77-107 | the list returned is the one the precedence rule chooses from the environment and the configured list |
| IfpMain.MatchesAsPrefix | src/ifp/ifp_main.c:118-143 | a library matches a file name exactly when they are equal, or the library has no `.` and the file name is the library, or `lib` and the library, followed by a `.` |
| IfpMain.NamedAfter | src/ifp/ifp_main.c:131-135 | a file named after a dot-free library and a `.` matches it |
| IfpMain.NamedAfterWithLib | src/ifp/ifp_main.c:137-141 | a file named `lib`, a dot-free library and a `.` matches it |
| IfpMain.GlkFilterIsLooser | src/ifp/ifp_main.c:152-156 | the directory filter accepts every plugin file name and also versioned names such as `libglkterm.so.0` that end in no `.so` |
| IfpMain.ContainsAt | src/ifp/ifp_main.c:152-156 | `.so` anywhere in a name passes the filter |
| IfpMain.GlkEntriesFilter | src/ifp/ifp_main.c:167-168 | the scan keeps exactly the directory entries that pass the filter |
| IfpMain.FlattenMember | src/ifp/ifp_main.c:182-204 | the paths searched are the paths the parts offer, each from some part |
| IfpMain.AnyLoadsAt | src/ifp/ifp_main.c:182-204 | a search succeeds exactly when some path offered loads |
| IfpMain.AttemptsFirstSuccess | src/ifp/ifp_main.c:182-204 | a first-success search tries a prefix of the paths; all but the last fail; it succeeds exactly when the last one tried loads; a failed search tries them all |
| IfpMain.AttemptsAppend | src/ifp/ifp_main.c:234-247 | searching two lists in a row reaches the second only when nothing in the first loads |
| IfpMain.AnyLoadsAppend | src/ifp/ifp_main.c:234-247 | a search of two lists in a row succeeds when either list has a path that loads |
| IfpMain.SearchedStep | src/ifp/ifp_main.c:278-313 | searching the next part while nothing has loaded extends the paths tried by that part's attempts |
| IfpMain.SearchedAll | src/ifp/ifp_main.c:278-313 | a search that ran through every part, or stopped at a success, has the result and the paths tried of the whole search |
| IfpMain.EarlierPartWins | src/ifp/ifp_main.c:278-313 | when no earlier part loads and part k does, the search tries every path of the earlier parts and then stops inside part k |
| IfpMain.DirectoryPathsMatch | src/ifp/ifp_main.c:182-196 | each path a directory offers is the directory, a `/` and an entry that passes the filter and matches the library |
| IfpMain.LoadFromDirectory | src/ifp/ifp_main.c:158-213 | an unreadable directory loads nothing; otherwise the entries are tried in order until one loads, and the paths tried are that first-success search |
| IfpMain.LoadFromPath | src/ifp/ifp_main.c:223-254 | the search path is split on `:`, empty elements are skipped, and the directories are searched in order until one yields a library |
| IfpMain.LoadGlk | src/ifp/ifp_main.c:264-325 | the list is split on `,`, empty entries are skipped, and entries are tried in order until one loads; the paths tried are the first-success search over what the entries offer |
| IfpMain.LoadLibrary | src/ifp/ifp_main.c:286-315 | an entry with a `/` is loaded directly only when it verifies as a shared object; any other entry is searched along the plugin path |
| IfpMain.EarlierEntryWins | src/ifp/ifp_main.c:278-313 | the order of the list decides: an entry is reached only when no earlier entry loads |
| IfpMain.GlkOption | src/ifp/ifp_main.c:348-356 | `-glk` is taken only as the first argument with a value; the new argument vector keeps the program name and the rest in order, two shorter |
| IfpMain.ArgumentsKept | src/ifp/ifp_main.c:357-362 | without a leading `-glk` the arguments pass through unchanged and the list is the configured choice |
| IfpMain.Run | src/ifp/ifp_main.c:334-394 | nothing loading gives `EXIT_FAILURE`; a library without `main` aborts; otherwise the status is what the library's `main` returns on the chosen arguments |
| IfpTracer.FacilityIsColonPrefix | src/ifp/ifp_tracer.c:89-100 | a format's facility is exactly a non-empty, colon-free text followed by `:` at the start of the format, within the 1023 characters copied |
| IfpTracer.NoColonNoFacility | src/ifp/ifp_tracer.c:97-113 | a format with no `:`, or one starting with `:`, has no facility |
| IfpTracer.NextOccurrenceFromStart | src/ifp/ifp_tracer.c:106 | the search for the next occurrence, started at the beginning, finds what `strstr` finds |
| IfpTracer.WordFromFindsAny | src/ifp/ifp_tracer.c:103-109 | the intended word search from a position succeeds exactly when a space-bounded occurrence starts there or later |
| IfpTracer.WordFromFound | src/ifp/ifp_tracer.c:103-109 | what the intended word search accepts is a space-bounded occurrence |
| IfpTracer.WordFromFinds | src/ifp/ifp_tracer.c:103-109 | every space-bounded occurrence is found by the intended word search |
| IfpTracer.HasWordIsWholeWord | src/ifp/ifp_tracer.c:103-109 | the intended test holds exactly when the facility is one of the selector's space-bounded words |
| IfpTracer.FirstIsWordSound | src/ifp/ifp_tracer.c:103-109 | the test as written accepts nothing the intended test refuses |
| IfpTracer.SelectsFacilityWord | src/ifp/ifp_tracer.c:78-114 | a format with a facility is selected exactly by a present selector that is `all` in any case, or `*`, or that has the facility as a whole word |
| IfpTracer.NoFacilityNoTrace | src/ifp/ifp_tracer.c:82-113 | a format without a facility is selected only by `all` or `*`, both as written and as intended |
| IfpTracer.FirstOccurrenceMissesLaterWord | src/ifp/ifp_tracer.c:103-109 | the selector `loaders loader` does not select a `loader:` trace as written, and does as intended |
| IfpTracer.LoaderFacility | src/ifp/ifp_tracer.c:97-100 | the facility of `loader: x` is `loader` |
| IfpTracer.LoadersNotAll | src/ifp/ifp_tracer.c:85-87 | `loaders loader` is not one of the selectors that select everything |
| IfpTracer.LoaderFirstInsideLoaders | src/ifp/ifp_tracer.c:106-109 | `strstr` finds `loader` inside `loaders` first, which is not a whole word |
| IfpTracer.LoaderIsSecondWord | src/ifp/ifp_tracer.c:103-109 | the intended search finds the second word of `loaders loader` |
| IfpTracer.Tracer.constructor | src/ifp/ifp_tracer.c:55-56 | no selector is set, the environment is unread, and messages are on |
| IfpTracer.Tracer.Select | src/ifp/ifp_tracer.c:65-69 | the program's selector is replaced; nothing else changes |
| IfpTracer.Tracer.Trace | src/ifp/ifp_tracer.c:129-175 | `IFP_TRACE` is read on the first call only; the message prints exactly when either selector selects the format |
| IfpTracer.Tracer.Messages | src/ifp/ifp_tracer.c:225-229 | messages are on exactly when the argument is non-zero |
| IfpTracer.Tracer.MessagesEnabled | src/ifp/ifp_tracer.c:231-235 | the result is whether messages are on |
| IfpTracer.Tracer.Report | src/ifp/ifp_tracer.c:246-286 | notices and errors print only while messages are on; fatal messages always print, and only they abort |
| Vectors.DoubleIsPowerOfTwo | src/gamebox/vector.c:86-87 | doubling keeps the allocation a power of two |
| Vectors.Vector.constructor | src/gamebox/vector.c:135-148 | a new vector has no elements and no allocation |
| Vectors.Vector.Extend | src/gamebox/vector.c:76-97 | the length grows to `elements` when that is longer; a new allocation, when needed, is the least doubling that holds `elements`; elements in use keep their values |
| Vectors.Vector.Expunge | src/gamebox/vector.c:99-117 | element `i` is removed and the later ones move down by one, in place |
| Vectors.Vector.Get | src/gamebox/vector.c:161-171 | the element read is the one at the index |
| Vectors.Vector.Set | src/gamebox/vector.c:173-178 | the element is stored at the index, the length extended to cover it, and every other element in use keeps its value |
| Vectors.Vector.Delete | src/gamebox/vector.c:180-184 | deleting removes the element, keeping the others in order |
| Vectors.Vector.GetLength | src/gamebox/vector.c:186-192 | the length is the number of elements in use |
| Vectors.Vector.Clear | src/gamebox/vector.c:194-200 | no elements are in use; the allocation and its contents stay |
| Vectors.Vector.Append | src/gamebox/vector.c:211-218 | the element goes at the end and its index, the old length, is returned |
| Vectors.Vector.Remove | src/gamebox/vector.c:220-228 | the last element is returned and removed |
| Vectors.Vector.Unqueue | src/gamebox/vector.c:230-238 | the first element is returned and removed; the rest move down in order |
| Vectors.AppendThenRemove | src/gamebox/vector.c:211-228 | used as a stack, a vector pops what was pushed and is left as it was |
| Utf.Mask | src/gamebox/utfhandler.c:48-55 | the lead-byte mask has one top bit for a single byte and n + 1 top bits for n = 2 to 6 |
| Utf.LeadFrom | src/gamebox/utfhandler.c:71-82 | the length found for a lead byte is 0 or a length from the starting one up to six |
| Utf.LeadLengthIsTable | src/gamebox/utfhandler.c:71-82 | a lead byte's length is 1 for 0xxxxxxx and n for n one bits followed by a zero, and 0 otherwise |
| Utf.SeqLength | src/gamebox/utfhandler.c:66-96 | the length of a sequence is between 0 (malformed) and six |
| Utf.SequenceLength | src/gamebox/utfhandler.c:66-96 | the two counting loops compute the length of the sequence at the index |
| Utf.LeadMatch | src/gamebox/utfhandler.c:71-82 | the mask loop stops at the first length whose pattern the lead byte matches |
| Utf.Continued | src/gamebox/utfhandler.c:84-93 | the continuation loop succeeds exactly when the next n - 1 bytes are all 10xxxxxx |
| Utf.GenerateUnicode | src/gamebox/utfhandler.c:106-126 | shifting in six bits per continuation byte yields the sequence's code point, or the unused marker when the lead payload is zero |
| Utf.Step | src/gamebox/utfhandler.c:138-158 | every conversion step advances by one to six bytes |
| Utf.ConvertSequence | src/gamebox/utfhandler.c:138-158 | the byte emitted and the next index are those of one conversion step, and the index moves forward |
| Utf.SeqLengthInside | src/gamebox/utfhandler.c:84-93 | a well-formed sequence and every step lie inside the string, since the terminating NUL is not a continuation byte |
| Utf.ToIsoNoLonger | src/gamebox/utfhandler.c:182-186 | the converted string is never longer than the input, so the buffer of the input's length plus one suffices |
| Utf.AsciiStep | src/gamebox/utfhandler.c:144-152 | a non-NUL ASCII byte converts to itself and advances one byte |
| Utf.AsciiUnchanged | src/gamebox/utfhandler.c:175-194 | an all-ASCII string converts to itself |
| Utf.MalformedStep | src/gamebox/utfhandler.c:156-157 | a malformed sequence emits `?` and advances one byte |
| Utf.DecodedStep | src/gamebox/utfhandler.c:144-152 | a well-formed sequence emits its code point when that is at most 0xFF, and `?` above it, advancing past the whole sequence |
| Utf.Latin1RoundTrip | src/gamebox/utfhandler.c:138-158 | decoding the UTF-8 encoding of any non-NUL ISO-8859-1 byte gives that byte back and consumes exactly the encoding |
| Utf.TwoByteDecodes | src/gamebox/utfhandler.c:106-126 | the two-byte encoding of a byte of 0x80 or more is one well-formed sequence whose value is that byte |
| Utf.EncodingBits | src/gamebox/utfhandler.c:106-126 | the two encoding bytes of a byte carry its top two and low six bits |
| Utf.ToIsoStep | src/gamebox/utfhandler.c:189-190 | the converted string is the byte of one step followed by the conversion from where the step ends |
| Utf.Put | src/gamebox/utfhandler.c:190 | one byte is written after the converted prefix and the rest of the buffer is unchanged |
| Utf.ToIsoInternal | src/gamebox/utfhandler.c:175-194 | the buffer is one byte longer than the input and holds the converted string followed by a NUL |
| Utf.OverlongAccepted | src/gamebox/utfhandler.c:112-117 | as written, the overlong form C1 81 is read as `A`, and the shortest three-byte form of U+0800 turns into three `?` |
| Utf.StepShortest | src/gamebox/utfhandler.c:106-158 | with the intended shortest-form check, every step still advances by one to six bytes |
| Utf.ShortestIsUnique | src/gamebox/utfhandler.c:106-158 | with the intended check, a byte other than `?` is emitted only from the shortest encoding of that byte |
| Utf.AcceptedIsEncoding | src/gamebox/utfhandler.c:106-126 | a sequence the intended check accepts with a value up to 0xFF is the encoding of that value |
| Utf.ShortestRoundTrip | src/gamebox/utfhandler.c:138-158 | the intended decoder still gives back every non-NUL ISO-8859-1 byte from its encoding |
| Utf.ShortestExample | src/gamebox/utfhandler.c:106-126 | under the intended check C1 81 is rejected as one `?` byte and U+0800 becomes a single `?` |
| Utf.Bytes | src/gamebox/utfhandler.c:202-208 | a string becomes bytes of the same length |
| Utf.Chars | src/gamebox/utfhandler.c:202-208 | bytes become a string of the same length |
| IniFile.CommentIff | src/gamebox/inifile.c:383-389 | a line is a comment exactly when it is blank, or its first character past spaces and tabs is `;` or `#` |
| IniFile.SectionSound | src/gamebox/inifile.c:392-408 | a line accepted as a header is whitespace, `[`, whitespace, the name, optional spaces, `]` and trailing whitespace, and nothing else |
| IniFile.SectionComplete | src/gamebox/inifile.c:392-408 | every line of that shape is accepted, with its name |
| IniFile.PairSound | src/gamebox/inifile.c:411-439 | a line accepted as a pair is leading whitespace, a property free of `=`, `=` and a value that is the rest up to a line feed |
| IniFile.PairComplete | src/gamebox/inifile.c:411-439 | every line of that shape is accepted, with its property and value, the value empty when nothing follows `=` |
| IniFile.PairIndex | src/gamebox/inifile.c:95-106 | the pair found is the first whose property matches ignoring case, and none is found exactly when no property matches |
| IniFile.FindPair | src/gamebox/inifile.c:95-106 | the walk from the head of the list finds the first matching pair |
| IniFile.AddPairLookup | src/gamebox/inifile.c:137-154 | after a property is set, looking it up in any case gives the new value and every other property keeps its value |
| IniFile.AddPairDistinct | src/gamebox/inifile.c:310-353 | setting a property keeps the properties distinct, and the list grows by one exactly when the property was new |
| IniFile.SectionIndex | src/gamebox/inifile.c:270-274 | the section found is one whose name matches ignoring case, and none is found exactly when no name matches |
| IniFile.WithSection | src/gamebox/inifile.c:266-299 | the section returned is in the list |
| IniFile.LookupSectionProperties | src/gamebox/inifile.c:266-299 | the section returned matches the name; existing sections keep their order; the names stay distinct; a section is appended at the tail exactly when none matched |
| IniFile.ApplyHeader | src/gamebox/inifile.c:530-538 | a `[DEFAULT]` header sends later pairs to the globals, and any other header to a section of the document |
| IniFile.ApplyPair | src/gamebox/inifile.c:540-550 | a pair never adds or removes a section |
| IniFile.ParseFromFails | src/gamebox/inifile.c:523-563 | from any state, the parse fails exactly when some line is unrecognised |
| IniFile.ParseFails | src/gamebox/inifile.c:503-566 | the document is null exactly when some line is neither a comment, a header nor a pair |
| IniFile.ParseFromKeeps | src/gamebox/inifile.c:523-555 | a successful parse keeps the earlier sections first and in order and every table free of duplicates |
| IniFile.HeaderKeeps | src/gamebox/inifile.c:530-538 | a header keeps the document well formed and the existing sections unchanged |
| IniFile.PairKeeps | src/gamebox/inifile.c:540-550 | a pair keeps the document well formed and every section's name |
| IniFile.ParseWellFormed | src/gamebox/inifile.c:503-566 | a parsed document has distinct section names and no property twice in one table |
| IniFile.BareHeader | src/gamebox/inifile.c:392-408 | a bare `[name]` line is a header |
| IniFile.BareAssignment | src/gamebox/inifile.c:411-439 | a bare `property=value` line is a pair with that property and value |
| IniFile.ParseDefaultSection | src/gamebox/inifile.c:532-533 | pairs after `[DEFAULT]` go to the globals |
| IniFile.ParseRepeatedSection | src/gamebox/inifile.c:266-299 | a header repeated in another case reuses its section, and a property set twice there keeps the last value under its first spelling |
| IniFile.ParseUnrecognisedExample | src/gamebox/inifile.c:552-562 | a line that is no comment, header or pair makes the whole parse fail |
| IniFile.GetLine | src/gamebox/inifile.c:479-494 | every trailing carriage return and line feed is removed and nothing else |
| IniFile.IniDoc.constructor | src/gamebox/inifile.c:362-372 | a new document has no globals and no sections |
| IniFile.IniDoc.LookupSection | src/gamebox/inifile.c:266-299 | the sections become those with the named section found or appended, and the globals are unchanged |
| IniFile.IniDoc.SectionAddPair | src/gamebox/inifile.c:310-330 | only the given section's pairs change, to the property set to the value |
| IniFile.IniDoc.GlobalAddPair | src/gamebox/inifile.c:333-353 | only the globals change, to the property set to the value |
| IniFile.ParseDocument | src/gamebox/inifile.c:503-566 | the result is null exactly when the line-by-line parse fails, and otherwise a new document holding what it parsed |
| IniFile.ParseLine | src/gamebox/inifile.c:523-555 | one line of the loop either carries the parse forward to the rest of the lines or makes it fail |
| IniParser.Property | src/gamebox/iniparser.c:66-79 | a bound property is absent exactly when the section lacks it; otherwise it is copied as is for ISO-8859-1 files and converted from UTF-8 for the others |
| IniParser.ReadProperty | src/gamebox/iniparser.c:68-78 | one binding reads its property as described above |
| IniParser.GetSectionProperties | src/gamebox/iniparser.c:60-80 | there is one value per binding, each the property bound to that name |
| IniParser.GameDefaults | src/gamebox/iniparser.c:119-130 | a game's location falls back to the section name and its title to `[Unknown Game]`; author and version are absent exactly when their property is |
| IniParser.ParseSection | src/gamebox/iniparser.c:90-144 | the game set gains exactly the game built from the section, at the end |
| IniParser.IsIsoEncoded | src/gamebox/iniparser.c:167-168 | the file is ISO-8859-1 exactly when the global `encoding` is `iso-8859-1` ignoring case |
| IniParser.SectionGames | src/gamebox/iniparser.c:170-174 | there is one game per section |
| IniParser.OneGamePerSection | src/gamebox/iniparser.c:170-174 | each section yields one game, the ids run on from the games already present, and a section without `about` is located by its name |
| IniParser.AddSections | src/gamebox/iniparser.c:170-174 | the games of the sections are appended in section order |
| IniParser.ParseFile | src/gamebox/iniparser.c:153-178 | a document that does not parse adds nothing and fails; otherwise each section adds one game, in order |
| XmlParsers.ListString | src/gamebox/xmlparser.c:228-229 | a node list has a text exactly when it holds a text node |
| XmlParsers.FirstMatch | src/gamebox/xmlparser.c:186-198 | the child found matches the name and namespace and no earlier child does; none is found exactly when no child matches |
| XmlParsers.FindChild | src/gamebox/xmlparser.c:186-198 | the walk over the children finds the first child that matches |
| XmlParsers.RdfProperty | src/gamebox/xmlparser.c:214-246 | the loop computes the node's property as defined below |
| XmlParsers.Joined | src/gamebox/xmlparser.c:232-238 | joined parts are absent exactly when there are none |
| XmlParsers.RdfPropertyJoins | src/gamebox/xmlparser.c:214-246 | a node's property is its attribute followed by the text of each matching child, joined with ", ", and is absent exactly when there is neither |
| XmlParsers.LastFound | src/gamebox/xmlparser.c:268-281 | the row found is the last row that found the field, and none is found exactly when no row did |
| XmlParsers.AssignLast | src/gamebox/xmlparser.c:259-283 | a variable is set exactly when some row found it, and holds the converted value the last such row found |
| XmlParsers.OnlyRow | src/gamebox/xmlparser.c:259-283 | a field bound by one row only is that row's converted property, or absent |
| XmlParsers.RdfFound | src/gamebox/xmlparser.c:268-281 | the table yields one finding per row |
| XmlParsers.TableRow | src/gamebox/xmlparser.c:259-283 | a row whose variable no other row binds leaves that variable with the row's converted property |
| XmlParsers.RdfProperties | src/gamebox/xmlparser.c:259-283 | with no node every variable is NULL; otherwise the variables are those the rows assign |
| XmlParsers.ParseRdfGame | src/gamebox/xmlparser.c:293-344 | the game set gains the game the element describes, and nothing when it has no `about` |
| XmlParsers.GameTableReads | src/gamebox/xmlparser.c:307-322 | the game table reads `RDF:about`, `IF:title` and each IF detail into its own variable |
| XmlParsers.GameRow | src/gamebox/xmlparser.c:307-320 | each row of the game table binds a variable no other row binds |
| XmlParsers.DescriptionForFound | src/gamebox/xmlparser.c:370-393 | the peer found is an `RDF:Description` with the container's `about`, and no earlier peer is |
| XmlParsers.DescriptionForIs | src/gamebox/xmlparser.c:370-393 | the first such peer is the one found |
| XmlParsers.DescriptionForNone | src/gamebox/xmlparser.c:370-393 | with no such peer nothing is found |
| XmlParsers.RdfContainer | src/gamebox/xmlparser.c:354-399 | the descriptor found is the first peer, the container included, that describes the container's `about` |
| XmlParsers.RdfGroup | src/gamebox/xmlparser.c:465-474 | a group a container makes has the next id and starts empty |
| XmlParsers.RdfGroupRule | src/gamebox/xmlparser.c:450-483 | a container makes a group exactly when a peer description carries its `about`, and the group's `about` is that value, converted |
| XmlParsers.ContainerTableReads | src/gamebox/xmlparser.c:458-466 | the container table reads `RDF:about`, `DC:title` and `DC:description` into their own variables |
| XmlParsers.ParseRdfContainer | src/gamebox/xmlparser.c:450-483 | the registry gains the container's group, at the end, when it makes one, and the index returned is that group's |
| XmlParsers.ResourceRow | src/gamebox/xmlparser.c:415-424 | the resource table reads `RDF:resource` into its variable |
| XmlParsers.AddContainerResources | src/gamebox/xmlparser.c:410-438 | only the container's group changes: each resource is appended as the game at that location, else as the group with that `about`, else dropped |
| XmlParsers.AddResource | src/gamebox/xmlparser.c:426-435 | one resource goes in as a game if one is at that location, else as a group, else nothing changes |
| XmlParsers.AddItem | src/gamebox/xmlparser.c:422-436 | one child adds the placement of its resource when it is an `RDF:li` with one |
| XmlParsers.ItemResourceOf | src/gamebox/xmlparser.c:422-426 | the resource of an item is the one the resource table reads |
| XmlParsers.AddPlaced | src/gamebox/xmlparser.c:426-435 | a found resource goes to the end of the group, looked up in the groups as they stood at the start |
| XmlParsers.PlacementIgnoresContents | src/gamebox/xmlparser.c:430-432 | where a resource goes does not depend on what any group already holds |
| XmlParsers.RdfContainers | src/gamebox/xmlparser.c:521-542 | each container that makes a group gets the next id, in document order, and starts empty |
| XmlParsers.Filled | src/gamebox/xmlparser.c:548-554 | filling the groups never changes a group's `about` |
| XmlParsers.AddRdfGames | src/gamebox/xmlparser.c:504-513 | the first pass appends the game of every game or story element, in document order |
| XmlParsers.AddRdfContainers | src/gamebox/xmlparser.c:519-542 | the second pass appends the group of every container that makes one and pairs each container with its group |
| XmlParsers.FillRdfGroups | src/gamebox/xmlparser.c:548-554 | the third pass fills every paired group with its container's resources |
| XmlParsers.ParseRdfRoot | src/gamebox/xmlparser.c:494-557 | games come first, then every group, then the groups' contents, so a container may name a group defined after it |
| XmlParsers.FilledGroups | src/gamebox/xmlparser.c:548-554 | each paired group holds the placements of its container's resources, looked up among all the groups, those defined later included |
| XmlParsers.FilledUntouched | src/gamebox/xmlparser.c:548-554 | a group no container was paired with is unchanged |
| XmlParsers.RdfRootGroups | src/gamebox/xmlparser.c:494-557 | every group the root pass makes holds exactly its container's resolved resources |
| XmlParsers.PairsIncrease | src/gamebox/xmlparser.c:537-539 | the pairs name their groups in increasing order |
| XmlParsers.Blanked | src/gamebox/xmlparser.c:712-716 | every whitespace character becomes a space and nothing else changes |
| XmlParsers.Collapse | src/gamebox/xmlparser.c:718-729 | collapsing never lengthens the text |
| XmlParsers.ReplaceBreaks | src/gamebox/xmlparser.c:742-751 | replacing breaks never lengthens the text |
| XmlParsers.NormalizedShape | src/gamebox/xmlparser.c:706-752 | a normalised description never grows, keeps no whitespace but spaces and newlines, has no two spaces in a row, and neither begins nor ends with a space |
| XmlParsers.CollapsedShape | src/gamebox/xmlparser.c:712-729 | after the first two passes the only whitespace left is single spaces |
| XmlParsers.CollapseNoDouble | src/gamebox/xmlparser.c:718-729 | collapsing leaves no two spaces in a row and keeps the first character |
| XmlParsers.CollapseChars | src/gamebox/xmlparser.c:718-729 | collapsing keeps only characters of its input |
| XmlParsers.TrimmedShape | src/gamebox/xmlparser.c:731-740 | trimming leaves no space at either end and adds none |
| XmlParsers.BreaksKeepChars | src/gamebox/xmlparser.c:742-751 | replacing breaks adds no whitespace but newlines |
| XmlParsers.BreaksKeep | src/gamebox/xmlparser.c:742-751 | replacing breaks adds no double space and no space at either end |
| XmlParsers.NormalizeDescription | src/gamebox/xmlparser.c:706-752 | the passes over one buffer compute the normalised description, which is never longer than the input |
| XmlParsers.CollapseSpaces | src/gamebox/xmlparser.c:718-729 | cutting each run of spaces down to one, position by position, gives the collapsed text |
| XmlParsers.DropOne | src/gamebox/xmlparser.c:722-728 | removing one of two adjacent spaces does not change the collapsed text |
| XmlParsers.DropSpaces | src/gamebox/xmlparser.c:722-728 | removing all but the first space of a run does not change the collapsed text |
| XmlParsers.ReplaceBreakTags | src/gamebox/xmlparser.c:742-751 | the forward scan turns each `<br/>` it meets into a newline |
| XmlParsers.TrailingReadAsWritten | src/gamebox/xmlparser.c:736 | the index the trailing test reads is at least -1 |
| XmlParsers.TrailingReadInBounds | src/gamebox/xmlparser.c:731-740 | as written, the trailing test reads inside the text exactly when the description holds a character that is not whitespace |
| XmlParsers.BlankDescriptionReadsOutside | src/gamebox/xmlparser.c:736 | as written, an empty or all-whitespace description makes the trailing test read the byte before the buffer |
| XmlParsers.CollapseIdle | src/gamebox/xmlparser.c:718-729 | text with no two spaces in a row is its own collapse |
| IFiction.ChildNamed | src/gamebox/xmlparser.c:186-198 | the child found matches and is a child of the node, and one is found exactly when some child matches |
| IFiction.BabelPropertyOf | src/gamebox/xmlparser.c:571-587 | a property is found only in a matching child |
| IFiction.BabelProperty | src/gamebox/xmlparser.c:571-587 | the property read is the text of the first matching child |
| IFiction.DoubleProperty | src/gamebox/xmlparser.c:605-625 | a row finds a property only when its parent element is present |
| IFiction.ChildProperty | src/gamebox/xmlparser.c:609-618 | a property under a parent is found only when the parent is present |
| IFiction.BabelFound | src/gamebox/xmlparser.c:605-626 | the table yields one finding per row |
| IFiction.BabelProperties | src/gamebox/xmlparser.c:597-627 | every variable is cleared, then each row that finds its parent and its property overwrites its variable with the converted property |
| IFiction.Prefer | src/gamebox/xmlparser.c:619-624 | a later finding replaces an earlier one, and a value is present exactly when either is |
| IFiction.LastRowWins | src/gamebox/xmlparser.c:605-626 | when the rows given are all those writing a variable, it holds the converted value of the latest that found one, and is unset when none did |
| IFiction.DoubleTableRows | src/gamebox/xmlparser.c:605-626 | when the rows given, in order, are all those writing a variable, it holds the converted value of the latest that found one |
| IFiction.DoubleTableRow | src/gamebox/xmlparser.c:605-626 | a row whose variable no other row writes leaves that variable with the row's converted property |
| IFiction.StoryIfid | src/gamebox/xmlparser.c:782-783 | the IFID is read from `identification/ifid` |
| IFiction.StoryAuthorRow | src/gamebox/xmlparser.c:784-785 | the author is read from `bibliographic/author` |
| IFiction.StoryTitle | src/gamebox/xmlparser.c:792-793 | the title is read from `bibliographic/title` |
| IFiction.StoryPublisher | src/gamebox/xmlparser.c:794-795 | the publisher is read from `bibliographic/group` |
| IFiction.RowsOfTable | src/gamebox/xmlparser.c:781-810 | rows 4, 7 and 9 are exactly the rows writing the release date, and rows 8, 10, 11 and 12 exactly those writing the version |
| IFiction.StoryReleaseDateRows | src/gamebox/xmlparser.c:790-802 | the release date is that of the latest of `bibliographic/firstpublished`, `tads2/releasedate` and `tads3/releasedate` that is present |
| IFiction.StoryVersionRows | src/gamebox/xmlparser.c:799-808 | the version is that of the latest of `tads2/version`, `tads3/version`, `zcode/release` and `glulx/release` that is present |
| IFiction.GameboxRows | src/gamebox/xmlparser.c:812-818 | the annotation table reads the location and the group name from `gamebox/about` and `gamebox/group` |
| IFiction.NoPieces | src/gamebox/xmlparser.c:662-685 | a description has pieces exactly when some child is text or a `br` element |
| IFiction.PiecesJoin | src/gamebox/xmlparser.c:662-685 | the description is its pieces run together with nothing between them, and is absent exactly when there are none |
| IFiction.GetStoryDescription | src/gamebox/xmlparser.c:641-695 | the description read is the converted concatenation of the text and `<br/>` pieces of `bibliographic/description`, or absent |
| IFiction.StoryAuthor | src/gamebox/xmlparser.c:848-852 | the author is kept unless it is "Anonymous" in any case |
| IFiction.UnannotatedStoryReadsUnsetGroup | src/gamebox/xmlparser.c:825-858 | as written, a story with an IFID and no annotation adds its game at the download location plus the IFID and then tests a group variable nothing assigned; the corrected reading has no group |
| IFiction.AnnotatedStoryGroup | src/gamebox/xmlparser.c:825-829 | where the code does assign the group, the corrected reading agrees with it |
| IFiction.StoryGameLocation | src/gamebox/xmlparser.c:825-840 | a story adds a game exactly when the annotation gives a location or the story has an IFID, the annotation's location taking precedence over the download location plus the IFID |
| IFiction.StoryGameTitle | src/gamebox/xmlparser.c:840-855 | the game takes the given id, the title `[Unknown Game]` when the story has none, and no byline or length |
| IFiction.StoryGameRelease | src/gamebox/xmlparser.c:840-855 | the game's release date and version are those of the latest row that has one |
| IFiction.StoryDescriptionNormalized | src/gamebox/xmlparser.c:845-846 | the game has a description exactly when the story does, and it is the normalised text, with no double space and no space at either end |
| IFiction.StoryGroups | src/gamebox/xmlparser.c:857-866 | a story never removes a group or changes an existing group's location |
| IFiction.StoryJoinsGroup | src/gamebox/xmlparser.c:857-866 | a story that joins a group adds at most one group, and only when none had that name; the newest group of the name holds the new game last; every other group is unchanged |
| IFiction.ParseStory | src/gamebox/xmlparser.c:763-881 | the game set gains the story's game, when it has a location, and the groups change as a story requires |
| IFiction.ReadStory | src/gamebox/xmlparser.c:820-838 | the reading half yields the story's variables, description, location and corrected group |
| IFiction.ReadAnnotation | src/gamebox/xmlparser.c:825-831 | without an annotation the location is NULL; otherwise both are read from the annotation table |
| IFiction.AddStoryGame | src/gamebox/xmlparser.c:840-855 | the game added is the story's game, at the end of the set |
| IFiction.JoinGroup | src/gamebox/xmlparser.c:857-866 | the newest group of the name, made when missing, gains the game just added |
| IFiction.BabelGamesOnly | src/gamebox/xmlparser.c:903-909 | the games after an ifindex root are those before it followed by those its stories add, whatever the groups |
| IFiction.BabelGameIds | src/gamebox/xmlparser.c:903-909 | the games a root adds take consecutive ids from the first free one |
| IFiction.BabelKeepsGroups | src/gamebox/xmlparser.c:903-909 | the stories of a root never remove a group or change a group's location |
| IFiction.ParseBabelRoot | src/gamebox/xmlparser.c:892-912 | every story child of the root is read in order, with the download location from `GAMEBOX_BABEL_URL` or its default |
| IFiction.ParseFile | src/gamebox/xmlparser.c:924-959 | the file is accepted exactly when it parses and its root is an RDF or ifindex element; otherwise nothing changes; an RDF root adds its games and its filled groups |
| GameSets.Reverse | src/gamebox/gameset.c:115-116 | the list order is the order of addition reversed |
| GameSets.Latest | src/gamebox/gameset.c:217-230 | the game found is the most recently added one at the location, and none is found exactly when no game has it |
| GameSets.GameSet.constructor | src/gamebox/gameset.c:84-117 | the set starts with no games and no id vector |
| GameSets.GameSet.AddGame | src/gamebox/gameset.c:84-117 | the new game takes the next id, the id vector exists, and the game is added after all the others, so it heads the list |
| GameSets.GameSet.Iterate | src/gamebox/gameset.c:163-168 | from nothing the walk gives the head of the list, and from a game the one added just before it, ending after the oldest |
| GameSets.GameSet.IsEmpty | src/gamebox/gameset.c:171-174 | the set is empty exactly when it has no games |
| GameSets.GameSet.Erase | src/gamebox/gameset.c:177-208 | afterwards there are no games and no id vector |
| GameSets.GameSet.FindGame | src/gamebox/gameset.c:217-230 | the walk from the head finds the most recently added game at the location, or nothing when none has it |
| GameSets.GameSet.IdToGame | src/gamebox/gameset.c:301-314 | a game is found exactly when the id is below the number of games, and it carries that id |
| GameSets.IdRoundTrip | src/gamebox/gameset.c:293-314 | every game's id leads back to that game |
| GameSets.AddThenFind | src/gamebox/gameset.c:84-230 | the game just added heads the list and is what a lookup of its location finds |
| GameGroups.LatestGroup | src/gamebox/gamegroup.c:190-203 | the group found is the most recently added one with that `about`, and none is found exactly when no group has it |
| GameGroups.LatestGroupIgnoresContents | src/gamebox/gamegroup.c:190-203 | lookups by `about` do not depend on what any group holds |
| GameGroups.Keep | src/gamebox/gamegroup.c:352-378 | removing nodes never lengthens the list |
| GameGroups.KeepMembers | src/gamebox/gamegroup.c:352-378 | what remains is exactly the nodes of the list that were not removed |
| GameGroups.KeepMore | src/gamebox/gamegroup.c:357-376 | removing one more node after a set of them is removing the larger set |
| GameGroups.RemoveNode | src/gamebox/gamegroup.c:362-376 | the inner loop deletes every copy of the node, keeping the order of the rest |
| GameGroups.Registry.constructor | src/gamebox/gamegroup.c:90-116 | the registry starts with no groups, no id vector and no root |
| GameGroups.Registry.AddGroup | src/gamebox/gamegroup.c:90-116 | the new group is empty, takes the next id, is added after all the others, and the id vector exists |
| GameGroups.Registry.IsEmpty | src/gamebox/gamegroup.c:150-153 | the registry is empty exactly when it has no groups |
| GameGroups.Registry.Erase | src/gamebox/gamegroup.c:156-181 | afterwards there are no groups and no id vector; the cached root is kept |
| GameGroups.Registry.FindGroup | src/gamebox/gamegroup.c:190-203 | the walk from the head finds the newest group with that `about` |
| GameGroups.Registry.AddGameToGroup | src/gamebox/gamegroup.c:229-244 | the group gains the newest game at the location exactly when one exists, and nothing else changes |
| GameGroups.Registry.AddGroupToGroup | src/gamebox/gamegroup.c:247-268 | the group gains the newest group with that `about` exactly when one exists, and nothing else changes |
| GameGroups.Registry.IterateGroup | src/gamebox/gamegroup.c:453-472 | from nothing the walk gives the first node when there is one; from a node, the next one; nothing after the last |
| GameGroups.Registry.IterateGroupAsWritten | src/gamebox/gamegroup.c:453-472 | as written, the walk fails its index assertion exactly when the group is empty or the node lies outside it, and otherwise agrees with the corrected walk |
| GameGroups.EmptyGroupWalk | src/gamebox/gamegroup.c:459 | starting to walk an empty group fails the vector's index assertion as written, while the corrected walk ends at once |
| GameGroups.Registry.GroupIsEmpty | src/gamebox/gamegroup.c:475-480 | a group is empty exactly when it holds nothing |
| GameGroups.Registry.IdToGroup | src/gamebox/gamegroup.c:499-514 | a group found carries the id once the offset is added, modulo 2^32 |
| GameGroups.GroupIdRoundTrip | src/gamebox/gamegroup.c:491-514 | every group's id leads back to that group while fewer than 2^31 groups exist |
| GameGroups.GameIdIsNoGroup | src/gamebox/gamegroup.c:499-514 | an id below the offset, such as a game's, names no group |
| GameGroups.Registry.ListNodes | src/gamebox/gamegroup.c:330-349 | the nodes listed are every game and then every group, newest first |
| GameGroups.Registry.RemoveContained | src/gamebox/gamegroup.c:352-378 | the listing loses exactly the nodes that some group contains |
| GameGroups.Registry.RemoveContents | src/gamebox/gamegroup.c:357-377 | walking one group removes every node it holds |
| GameGroups.Registry.AddMembers | src/gamebox/gamegroup.c:416-437 | the root gains each member, looked up again by location or by `about`, in order |
| GameGroups.Registry.AddMember | src/gamebox/gamegroup.c:418-436 | one member is looked up again and appended to the root |
| GameGroups.Registry.GetRoot | src/gamebox/gamegroup.c:312-443 | the cached root if there is one; nothing with no games and no groups; the only uncontained node when it is a group; otherwise a new `[Root]` group holding every uncontained node, or every group when all are contained |
| GameGroups.AllNodesFit | src/gamebox/gamegroup.c:330-349 | every node listed names an existing game or group |
| GameGroups.RootKeepsLocations | src/gamebox/gamegroup.c:414-437 | a manufactured root is one new group holding, for each member, a game at the same location or a group with the same `about` |
| GameGroups.EraseKeepsRoot | src/gamebox/gamegroup.c:156-181 | erasing the groups keeps a designated root, which then names no group |
| GamePages.Value | src/gamebox/gamepage.c:48 | the number a run of digits spells is below ten to the power of its length |
| GamePages.Decimal | src/gamebox/gamepage.c:98 | the decimal spelling of a number is a non-empty run of digits |
| GamePages.DecimalValue | src/gamebox/gamepage.c:95-98 | the decimal spelling of a number reads back as that number |
| GamePages.LeadingZeros | src/gamebox/gamepage.c:98 | leading zeros do not change the number a run of digits spells |
| GamePages.ZeroPaddedValue | src/gamebox/gamepage.c:98 | `%04d` of a number that fits gives exactly four digits spelling it |
| GamePages.ScanInt | src/gamebox/gamepage.c:48-56 | a number that is read always consumes at least one character and stays in the text |
| GamePages.ScanDigits | src/gamebox/gamepage.c:48-56 | a run of `width` digits is read back as the number it spells |
| GamePages.FullFields | src/gamebox/gamepage.c:48-49 | `YYYY-MM-DD`, alone or followed by a space, yields three fields: year, month and day |
| GamePages.MonthFields | src/gamebox/gamepage.c:48-53 | `YYYY-MM` fails the first pattern and yields year and month from the second |
| GamePages.YearFields | src/gamebox/gamepage.c:48-57 | a bare `YYYY` fails the first two patterns and yields the year from the third |
| GamePages.ConvertTakesFull | src/gamebox/gamepage.c:48-49 | when the full pattern matches, the date is rendered from its three fields |
| GamePages.ConvertTakesMonth | src/gamebox/gamepage.c:50-53 | when only the month pattern matches, the day is taken as zero |
| GamePages.ConvertTakesYear | src/gamebox/gamepage.c:54-57 | when only the year matches, month and day are taken as zero |
| GamePages.ConvertRejects | src/gamebox/gamepage.c:57-62 | text that matches none of the three patterns is shown as it is |
| GamePages.ConvertFullDate | src/gamebox/gamepage.c:42-100 | `YYYY-MM-DD` is shown as month name, day and year, month and day left out when zero; a month past 12 or a day past 31 leaves the text as it was |
| GamePages.ConvertMonthDate | src/gamebox/gamepage.c:42-100 | `YYYY-MM` is shown as month name and year, or as it was for a month past 12 |
| GamePages.ConvertYear | src/gamebox/gamepage.c:42-100 | `YYYY` is shown as the year alone |
| GamePages.ConvertNonDate | src/gamebox/gamepage.c:57-62 | text that does not begin, after blanks, with a digit or a sign is shown as it is |
| GamePages.StripArticle | src/gamebox/gamepage.c:361-379 | the sort title is the title less a leading `The `, `An ` or `A ` in any case, and equals the title exactly when it has none |
| GamePages.Compare | src/gamebox/gamepage.c:391-415 | an entry without a primary field sorts before one with it |
| GamePages.CompareEntries | src/gamebox/gamepage.c:336-415 | a group sorts before a game that has a primary field; without author or genre sorting, entries sort by title ignoring case |
| GamePages.CompareIsLexicographic | src/gamebox/gamepage.c:391-415 | the order is by primary field ignoring case, then by secondary field |
| GamePages.CompareZero | src/gamebox/gamepage.c:391-415 | two entries compare equal exactly when their keys are equivalent ignoring case |
| GamePages.CompareAntisymmetric | src/gamebox/gamepage.c:391-415 | swapping the entries negates the comparison |
| GamePages.CompareTransitive | src/gamebox/gamepage.c:391-415 | the comparison is transitive, so the sort is given a total preorder |
| GamePages.AsWrittenLastPageEmpty | src/gamebox/gamepage.c:482-492 | as written, a group of a whole number of pages, two or more, turned forward far enough lands on a last page that holds no entry |
| GamePages.LastPage | src/gamebox/gamepage.c:484 | the corrected last page starts before the last entry and holds it |
| GamePages.PageOf | src/gamebox/gamepage.c:513-516 | a page holds at most twenty entries, and at least one when it starts before the end |
| GamePages.PagesCover | src/gamebox/gamepage.c:479-516 | every page up to the last holds entries and every entry is on one of them |
| GamePages.Clamp | src/gamebox/gamepage.c:487-490 | the page is kept within the first and the last, and a page already within them is unchanged |
| GamePages.DisplayIds | src/gamebox/gamepage.c:123-124 | the display map gains one id per entry shown, in order |
| GamePages.DisplayIdFindsGroup | src/gamebox/gamepage.c:240-241 | the display id recorded for a group is the id that finds it again |
| GamePages.Pager.constructor | src/gamebox/gamepage.c:427-428 | the pager starts on page 0 with no group shown |
| GamePages.Pager.TurnPage | src/gamebox/gamepage.c:434-490 | a group other than the last one shown starts on the first page; a group of more than one page turns by the increment and stays within its pages |
| GamePages.Pager.ShowGroup | src/gamebox/gamepage.c:424-542 | given the group's contents as `qsort` returns them, a permutation in `gamepage_compare` order, the page is turned, the display ids of the entries on it are appended, every entry shown belongs to the group, and more pages follow exactly when the group is long and the page is not the last |
| GamePages.SortedPairwise | src/gamebox/gamepage.c:476-477 | in entries sorted by `gamepage_compare`, every earlier entry compares no greater than every later one |
| GamePages.SliceSorted | src/gamebox/gamepage.c:513-535 | any run of consecutive sorted entries, such as a page, is itself sorted |
| GamePages.ShownPageSorted | src/gamebox/gamepage.c:476-535 | the page shown of the sorted contents holds only entries of the group, and in `gamepage_compare` order |
| GamePages.RecordPage | src/gamebox/gamepage.c:513-535 | the display map gains the display id of each entry on the page, in order |
| GamePages.TurnedPageHoldsEntries | src/gamebox/gamepage.c:479-516 | with the corrected last page, a page turned to within a long group always holds entries |
| Catalog.LastIndex | src/gamebox/catalog.py:40 | the index found is the last occurrence of the character, or -1 when it does not occur |
| Catalog.LastIndexAppend | src/gamebox/catalog.py:40 | the last occurrence in a concatenation lies in the second part when that part holds the character |
| Catalog.Basename | src/gamebox/catalog.py:41 | the base name is a suffix of the path and holds no '/' |
| Catalog.SplitExt | src/gamebox/catalog.py:40 | the stem and the extension put back together give the path; the split is that of Python 2.2, the interpreter named on the script's first line |
| Catalog.SplitExtIs | src/gamebox/catalog.py:40 | the extension found is a given dotted suffix exactly when the path ends in it, leading dots of the file name included |
| Catalog.SplitExtOfSuffix | src/gamebox/catalog.py:209 | a path ending in a dotted suffix splits into the rest of the path and exactly that suffix |
| Catalog.SuffixOfSplitExt | src/gamebox/catalog.py:209 | the extension is empty exactly when the last path component holds no '.'; otherwise it is a '.' followed by no '.' and no '/' |
| Catalog.Replace | src/gamebox/catalog.py:41 | each character equal to the old one is replaced and every other one is kept |
| Catalog.TitleFrom | src/gamebox/catalog.py:41 | title casing keeps the length |
| Catalog.TitleIsPointwise | src/gamebox/catalog.py:41 | a letter after a letter is lower-cased, any other letter is upper-cased, and other characters are kept |
| Catalog.GetTitleShape | src/gamebox/catalog.py:38-41 | the title has one character per character of the file-name stem, holds no '_' and no '/', and agrees with the stem, with '_' read as a space, apart from case |
| Catalog.GetTitleExample | src/gamebox/catalog.py:38-41 | `/games/zork_1.z5` becomes `Zork 1` |
| Catalog.SuffixesAreExtensions | src/gamebox/catalog.py:210-212 | the list holds 22 suffixes, each a '.' followed by letters, digits or '$' |
| Catalog.IsGamelikeExactly | src/gamebox/catalog.py:207-212 | a path is game-like exactly when it ends in one of the 22 suffixes |
| Catalog.IsGamelikeExamples | src/gamebox/catalog.py:207-212 | the test is case-sensitive, and a file named only `.z5` is game-like, as Python 2.2's `splitext` takes `.z5` as its extension |
| Catalog.KeepIsSubsequence | src/gamebox/catalog.py:286 | the filter keeps, in order, exactly the entries that pass the test |
| Catalog.KeepIdempotent | src/gamebox/catalog.py:286 | filtering twice is the same as filtering once |
| Catalog.KeepAppend | src/gamebox/catalog.py:286 | the filter distributes over concatenation |
| Catalog.FilterGamelikeProperties | src/gamebox/catalog.py:284-286 | `-f` keeps exactly the game-like paths, in order; filtering twice equals filtering once; it distributes over concatenation |
| Catalog.StripLeft | src/gamebox/catalog.py:280 | only CR and LF are removed from the front, all of them, and the rest is a suffix of the line |
| Catalog.StripCrLfSlice | src/gamebox/catalog.py:280 | the stripped line is a slice with only CR and LF outside it and none at either of its ends; a blank line becomes empty |
| Catalog.StripCrLfExamples | src/gamebox/catalog.py:280 | a lone newline becomes empty and CR LF is removed at both ends |
| Catalog.DoShorts | src/gamebox/catalog.py:241-244 | packed short options never take more words than are left |
| Catalog.AcceptedOrMissing | src/gamebox/catalog.py:288-296 | each input is either accepted as an existing path or reported as missing, never both |
| Catalog.Entries | src/gamebox/catalog.py:45-204 | each generator writes one entry per accepted path |
| Catalog.CatalogRules | src/gamebox/catalog.py:235-305 | `-a` with `-b`, files with `-i` and no files without `-i` each end in `fatal` with exit status 1, and a run past those checks writes a document exactly when some path survives, with one diagnostic per missing input |
| Catalog.ProcessOptions | src/gamebox/catalog.py:246-264 | the option loop gives the settings the options ask for, in order, stopping at `-h` or at an `-o` file that cannot be opened |
| Catalog.ReadFiles | src/gamebox/catalog.py:277-280 | one stripped entry per line of standard input, blank lines included |
| Catalog.CheckExistence | src/gamebox/catalog.py:288-296 | the existing absolute paths are collected in order and a diagnostic is produced for each missing input |
| Catalog.ExistenceStep | src/gamebox/catalog.py:290-296 | one more input adds either its absolute path or its diagnostic |
| Catalog.Run | src/gamebox/catalog.py:235-309 | `main` produces the outcome its option checks, candidate list, filter and existence test determine |

## Left out

- Foreign calls are parameters of the operations that make them, not models. These are `dlopen`, `dlsym` and `dlclose`, the POSIX regex engine, libxml2's parser and tree, `stat`, `access`, `mkstemp`, `unlink`, `getenv`, `gettimeofday`, `scandir`, `open`/`fopen` and friends, signals and sockets. The model records the outcome each call returns, not how it is reached.
- Allocation failure is left out: `ifp_malloc` aborts the process, and the model assumes that every allocation succeeds. The one exception is finalizer registration, whose abort on a failed allocation is modelled.
- Trace output and the text of notices and errors are left out. The tracer and its callers say only whether a message prints. Formatting of that text (`ifp_trace_print`, `ifp_trace_pointer`) is left out too.
- The HTTP and FTP download clients, the `SIGIO` handler (`ifp_url_sigio_handler`, `ifp_url_install_handler`) and `ifp_url_poll_progress_async` are left out, because they are network I/O. A download's progress is a parameter: a sequence of poll results.
- `ifp_url_pause_async` is left out: it is a timed wait. The pause timeout it uses is modelled (`IfpUrl.PauseTimeout`).
- IfpUrl.Url.Resolve: when the given poll results run out with a download still under way, the method returns with `pending` set, where the C loop would go on waiting.
- `ifp_cache_timestamp` is left out: it reads the clock, and the time is a parameter.
- `ifp_pref_list_arguments`, `ifp_pref_create_startup_data_url` and `ifp_pref_forget_startup_data` are left out. They copy and free startup data that `IfpPref.Prefs.CreateStartupData` already determines, and the model does not track that storage.
- The plugin's chain, Glk and libc interface calls are left out, because the functions behind those symbols are foreign code. These include `ifp_plugin_chain_set_self`, `get_chain`, `attach`/`retrieve_glk_interface`, `attach`/`retrieve_libc_interface`, `glkunix_startup_code`, `glk_main` and `override_glk_exit`. Their outcomes are parameters of `Initialize` and `Run`.
- `ifp_plugin_set_next`, `get_next`, `set_prior` and `get_prior` are left out: the links they set and read are the `IfpLoader.Links` maps.
- `ifp_loader_clone_plugin` is left out: it copies a plugin by loading its file again, which `IfpLoader.Loader.ReplaceWithClone` takes as a parameter.
- `ifp_blorb_first_exec_type` is left out: it walks a Blorb resource map through the Glk stream and Blorb library calls.
- `ifp_config_read` is left out: it opens and reads the configuration file. `IfpConfig.ParseConfig` takes the lines it reads. The configuration parser's own functions (`ifp_config_is_parse_*`, the section and pair tables) are line for line those of `inifile.c`, and `IfpConfig` reuses `IniFile` for them.
- The `ifp_utils.c` wrappers for `dlopen` and `malloc`, and its `glk_c_*` stream helpers, are left out. So are `ifp_free_split_string`, `vector_destroy`, `inidoc_free` and `ifp_config_free`, which release memory.
- The magic-number checks (`*_is_valid`, `vector_is_vector`, `inidoc_is_doc`, `gameset_is_game`, `gamegroup_is_group`) are left out: the typed model has no foreign pointers to check. The `Valid` predicates take their place.
- `IfpMain.Run`: the argument vector is a sequence, without the `NULL` terminator.
- Getters that only select a field are left out. These are `gameset_get_game_*`, `gamegroup_get_group_title`, `gamegroup_get_node_*`, `inidoc_get_name`, `inidoc_iterate` and `ifp_config_get_*`. Lookups that do more than select a field are modelled.
- `gameset_find_game` and `gamegroup_find_group` first compare a hash of the location and only then the strings. The hash function is not shown. Because equal strings have equal hashes, the string test alone decides the result, and the model uses only that test.
- `gamepage_game_details`, `gamepage_group_details`, `gamepage_preamble` and `gamepage_display` are left out: they write Glk text. The model keeps what `gamepage_gamegroup` records in the display map and the page it shows.
- `inidoc_debug_dump`, `inidoc_debug_abbreviate` and `inidoc_parse_error` are left out: they print diagnostics.
- XML entity references and libxml2's text handling are left out. A text node's content is taken as given.
- Vectors.Vector.Set: slots between the old length and the new one keep whatever the array held. `vector.c` does not define their contents either, and the model promises nothing about them.
- The order of `scandir`'s `alphasort` is left out. The directory listing is a parameter and is taken in the order given.
- C `int` width is left out: the model's integers are unbounded and it does not capture overflow. This covers the sum of file sizes in `ifp_cache_size` (src/ifp/ifp_cache.c:116-121), the `usage_count++` of `ifp_cache_find_entry` (src/ifp/ifp_cache.c:228), the bucket counts multiplied by `HASH_FILL_FACTOR` in `mem_intercept.c` (lines 131 and 155) and the next size past the prime table, the doubling of a vector's allocation by `<< 1` (src/gamebox/vector.c:87), and a port read by `%d` in `ifp_url.c` (line 619). A port too large for an `int` is undefined behaviour in C; the model reads it as a number above 65535 and rejects it with `EINVAL`.
- `qsort` is left out: `GamePages.Pager.ShowGroup` takes its result as a parameter, required to be a permutation of the group's contents in `gamepage_compare` order. Which of two entries that compare equal comes first is not modelled.
- Catalog.Run: the three generators' output text is left out. The model keeps the document's format and its entries, each a title and a `file://` location, in order. Verbose listing on standard error is left out too.
- `catalog.py`'s `usage` text and the wording of `getopt`'s errors are left out. The outcome records only which failure occurred and the exit status.

## Findings

| source | as written | input that shows it | evidently intended | confidence | as-written member | corrected member |
|---|---|---|---|---|---|---|
| src/gamebox/utfhandler.c:112-117 | A sequence is rejected only when its lead byte's payload is zero. So overlong forms are decoded, and shortest three-byte forms with a zero lead payload are rejected. | C1 81 decodes to `A`. E0 A0 80, the shortest form of U+0800, gives three `?`. | Accept exactly the shortest encoding of each value (RFC 2279, section 2). | high, not executed | Utf.OverlongAccepted | Utf.ShortestIsUnique |
| src/gamebox/gamegroup.c:459 | `gamegroup_iterate_group (group, NULL)` takes the address of element 0 of the contents vector. `vector_get_data` asserts that the index is below the length. | A group with no members, such as a `RDF:Seq` container with no `li` items. | The walk ends at once. | medium, not executed | GameGroups.EmptyGroupWalk | GameGroups.Registry.IterateGroup |
| src/gamebox/xmlparser.c:825-858 | `group` is assigned only inside the `annotation` branch but is tested after it. | A `story` with an `identification/ifid` and no `annotation` element. | No group. | high, not executed | IFiction.UnannotatedStoryReadsUnsetGroup | IFiction.ReadAnnotation |
| src/gamebox/xmlparser.c:736 | The trailing-space test reads `description[length - 1]` with `length` 0. | `<description> </description>`, or an empty description. | Test the last character only when there is one. | high, not executed | XmlParsers.BlankDescriptionReadsOutside | XmlParsers.NormalizeDescription |
| src/gamebox/gamepage.c:484 | `last_page = nodes_count / 20`. | A group of 40 entries: page 2 is reachable and empty, and page 1 offers a next page. | `(nodes_count - 1) / 20`, the last page that holds an entry. | high, not executed | GamePages.AsWrittenLastPageEmpty | GamePages.TurnedPageHoldsEntries |
| src/ifp/ifp_pref.c:176-187 | A query field that is not `NULL` is passed to `strcasecmp` with the stored field even when the stored field is `NULL`. | A configuration with `[git]` and then `[git-1.2]`, each with `options`. The second registration compares `1.2` with a `NULL` version. | A stored `NULL` field matches only a wildcard query. | high, not executed | IfpPref.VersionAfterWildcardIsUndefined | IfpPref.MatchEntryAgrees |
| src/ifp/ifp_url.c:704-728 | A `file:` URL with a remote host is looked up in the cache as `ftp:` plus its hierarchical part. Its download is cached under the URL's own string. | `file://example.org/game.z5`, resolved twice: the second resolution misses the entry the first one made. | Look the fetch up under the key it is cached under. | medium, not executed | IfpUrl.DisguisedFtpMissesItsOwnEntry | IfpUrl.PlanAgrees |
| src/ifp/ifp_loader.c:49-73 | A deleted plugin keeps its `next` and `prior` links. `ifp_manager.c:736-758` deletes the original again after `ifp_loader_replace_with_clone`. | With `1, 2` listed: delete 2, append 3, then delete 2 again. The link from 1 to 3 is cleared. | Deletion clears the deleted plugin's links. | medium, not executed | IfpLoader.StaleLinksLoseTheTail | IfpLoader.DetachedDeleteKeepsTheTail |
| src/ifp/ifp_tracer.c:103-109 | Only the first `strstr` occurrence of the facility is checked for word boundaries. | The selector `loaders loader` and the trace `loader: x`. | The facility is any whole space-separated word of the selector. | high, not executed | IfpTracer.FirstOccurrenceMissesLaterWord | IfpTracer.HasWordIsWholeWord |
