# A Dafny model of the msssg static-site builder and its request handler

msssg compiles a site manifest (`links.json`) and its source files into a deployable bundle: a
SQLite database of every served URI (tables `uris`, `resources`, `encodings`, `redirects`),
and a directory of large resource bodies. A small PHP script answers each request from that
database. This project models both halves in Dafny and proves what they promise.

The builder (`src/builder.py`) is modelled as the class `Builder.Site`. Its fields are the
state the Python code mutates:

- the four tables;
- the `assets` map (id to URI) and the `history_assets` map (URI to id);
- the render memo;
- the render cache (`data_assets`) with its cached files;
- the files written under `www/`.

Its methods are `insert_resource`, `insert_asset`, `insert_graphic`, `insert_file` (with its
memo and the document rewrite), the manifest loop and the history resolution. Each method
states its effect through a specification function from module `Steps` or `Store`. The build
invariant (`Steps.Sound`) says four things:

- the tables keep their keys, foreign keys and CHECK constraints;
- every asset points at a stored resource;
- every render is an asset at that resource;
- every history entry whose URI is in the tables names the asset registered there.

Every step preserves this invariant, and rows and registrations are only ever added
(`Steps.Grows`).

The other modules:

- `Quality`: the quality tables, format selection, the width ladder, the render key, and the
  `bisect_right` plus round-half-even interpolation of `render_image`.
- `Resource`: how a resource's id, URI, etag, file names and encoded bodies are derived.
- `Radix`: the base64url, base32, base85 and base64 encodings this derivation uses (RFC 4648
  and Python's `b85encode`).
- `Markup`: the document rewrite over an abstract element tree.
- `Text`: the Python and PHP string helpers the code relies on.

The request handler (`src/server.php`) is module `Server`:

- the If-None-Match and Accept-Encoding parsing loops become methods proved equal to
  specification functions;
- the `ORDER BY uri, length LIMIT 1` query becomes a minimum over the joined rows, with the
  scan order as a parameter;
- the cache and action switches become one function of the chosen row.

Over tables the builder can produce, the lemmas prove which row is served and which status
results.

The proofs that carry the weight of the model are these:

- `Builder.DescribesExactly`: what `insert_graphic` returns is every format at every width.
- `Builder.RenditionsGrow`: renditions already described stay described as the build goes on.
- `Builder.DocumentOutcome`: what a processed document's references become.
- `Builder.ResolutionConsistent` and `Builder.Site.Resolve`: the history resolution keeps the
  tables consistent.
- `Steps.AssetStepHolds` and `Steps.RenderStepHolds`: each step keeps the build invariant.
- `Server.ConsistentAnswers`: every request over a built database gets an answer.
- `Radix.Base85Injective`: distinct resource ids get distinct entity tags.
- `Markup.SortByKeySorted`: the `<source>` elements come sorted by length.

Small helpers such as `Builder.SlashEnd` also carry proofs. They matter only as steps towards
these.

`insert_resource` derives the same content URI for byte-identical data inserted without a URI
of its own (src/builder.py:485-488). The second such insert therefore violates the primary key
of `uris` (src/builder.py:425) and the build fails (`Resource.NoDeduplication`).

## Model

| member | source | states |
|---|---|---|
| Quality.TablesWellFormed | src/builder.py:62-107 | The quality tables declare exactly the image types. Every level they use is a known level. Every interpolation table is non-empty with strictly ascending widths. |
| Quality.FormatsChosen | src/builder.py:598-606 | A (type, level) pair is rendered exactly when the type's table has the requested level, or the request is VERY HIGH and the table has HIGH. Each names a level its table defines. The types come in strictly ascending table order, so each type appears at most once. |
| Quality.FormatsInOrder | src/builder.py:598-606 | The selected formats are in strictly ascending order of their type's position in the tables. |
| Quality.FormatsByLevel | src/builder.py:598-606 | LOSSLESS renders PNG and WebP. LOW, MEDIUM and HIGH render JPEG and WebP. VERY HIGH gives exactly the HIGH formats. VERY LOW renders nothing. |
| Quality.FormatsUnknown | src/builder.py:598-606 | A level name that no table uses selects no format. |
| Quality.WidthsLadder | src/builder.py:610-617 | The ladder has 40 strictly ascending widths: exactly the multiples of 100 up to 4000. The fallback width 1200 is the 12th. |
| Quality.RenderKeyInjective | src/builder.py:619 | Within one graphic, two renders get the same key `path;type;width;level` only when type, level and width are equal. Type names hold no `;`. |
| Quality.VeryHighSharesKeys | src/builder.py:598-619 | A VERY HIGH request and a HIGH request for the same image ask for the same render keys, so they share renders. |
| Quality.BisectRight | src/builder.py:229-231 | `bisect_right`: every anchor width before the index is at most the width, and every one from the index on is greater. |
| Quality.RoundHalfEven | src/builder.py:239-244 | Python's `round` of a quotient: the result is within half a unit of n/d, and even on an exact tie. |
| Quality.RoundHalfEvenUnique | src/builder.py:239-244 | Any integer within half a unit of n/d that is even on a tie is the rounded value. Python's rounding is therefore characterised completely. |
| Quality.ResolveErrors | src/builder.py:218-246 | Resolution fails exactly for an unknown level name, an unknown type, or a level missing from the type's table, and the unknown-name error comes first. A lossless entry yields no value at any width. A table yields a number. |
| Quality.InterpolateClamps | src/builder.py:231-237 | Below the first anchor the value is the first anchor's value. At or above the last anchor it is the last anchor's value. |
| Quality.InterpolateBetween | src/builder.py:238-244 | Between anchors k and k+1 the value is the rounded linear interpolation of those two anchors. |
| Quality.InterpolateAtAnchor | src/builder.py:228-244 | At an anchor's own width the value is that anchor's value. |
| Quality.LerpBetween | src/builder.py:239-244 | An interpolated value lies between the values of the two anchors around it, whichever of them is larger. |
| Quality.RoundBetween | src/builder.py:239-244 | Rounding n/d never leaves integer bounds that enclose n/d. |
| Quality.ResolveWebpLow | src/builder.py:86-92 | WebP LOW at width 3500 is 28.5, which resolves to the even 28. |
| Quality.ResolveJpegMedium | src/builder.py:73-78 | JPEG MEDIUM at width 1300 is 82.5, which resolves to the even 82. |
| Quality.ResolveEdges | src/builder.py:218-246 | JPEG HIGH below its first anchor resolves to 96. PNG LOSSLESS resolves to no value. PNG HIGH is an unsupported-quality error. |
| Builder.RenderImage | src/builder.py:215-253 | A render succeeds exactly when the quality resolves and the requested width is at most the source image's width. It then encodes the source at that width with the resolved value. A render at a width above the source's own width fails. |
| Radix.Base64Url | src/builder.py:488 | Unpadded base64url: ceil(8n/6) characters, each unreserved in URIs and none of them `=`. |
| Radix.Base64UrlInjective | src/builder.py:488 | Byte strings of the same length have distinct unpadded base64url encodings. |
| Radix.Base32 | src/builder.py:527 | Unpadded base32: ceil(8n/5) characters from `A-Z2-7`. |
| Radix.Base32Injective | src/builder.py:527 | Byte strings of the same length have distinct unpadded base32 encodings. |
| Radix.UngroupGroups | src/builder.py:488 | Cutting a bit string into k-bit groups loses nothing: the groups spell the bits followed by zero padding. |
| Radix.Base85 | src/builder.py:494 | `b85encode`: 4n bytes become 5n characters, each one that may appear inside an entity tag. |
| Radix.Base85Injective | src/builder.py:494 | Byte strings of the same length, padded or not, have distinct base85 encodings. Each 4-byte word is its 5 base-85 digits, and a short last word keeps a prefix of them. |
| Radix.Base64 | src/builder.py:804 | Padded base64: 4 characters for every started 3-byte group, so a whole number of blocks, over the standard alphabet and `=`. |
| Text.Utf8 | src/builder.py:485 | UTF-8 encoding is at least as long as the string, and empty exactly for the empty string. |
| Text.Utf8Ascii | src/builder.py:485 | An ASCII string encodes to its own code points, one byte each. |
| Text.Utf8Append | src/builder.py:485 | The encoding of a concatenation is the concatenation of the encodings. |
| Text.NatToString | src/builder.py:619 | `str(n)` is a non-empty string of decimal digits. |
| Text.NatToStringValue | src/builder.py:790 | The digits of `str(n)` read back as n. |
| Text.NatToStringInjective | src/builder.py:619 | Distinct widths have distinct decimal numerals. |
| Text.Before | src/server.php:51 | `strstr(s, needle, true)`: the part before the first occurrence, or false when there is none. |
| Text.Split | src/server.php:36 | `explode` on one character: never empty, no piece holds the separator, and the pieces joined by it give back the input. |
| Text.Trim | src/server.php:36 | `trim`: the result neither starts nor ends with a trimmed character. |
| Text.TrimInfix | src/server.php:36 | `trim` keeps a contiguous middle part of the input, and everything cut off on either side is a trimmed character. |
| Text.Lower | src/server.php:46 | `strtolower`: the same length. Each ASCII capital becomes its lower-case letter (code point plus 32), and every other character is kept. |
| Text.Remove | src/server.php:47 | `str_replace(" ", "", s)`: no space is left, and every other character is kept as often as it occurs. |
| Text.RemoveAppend | src/server.php:47 | Removal distributes over concatenation, so the kept characters stay in order. |
| Text.Dedup | src/server.php:34-41 | The keys of an array assigned in turn: each key once, and exactly the values assigned. |
| Text.DedupSingleton | src/server.php:41 | Exactly one key remains if and only if every value assigned was the same. |
| Host.ReadFile | src/builder.py:192-200 | `data_file` returns the file's bytes exactly when the file exists. |
| Resource.ContentId | src/builder.py:485 | The resource id is 16 bytes: the first 16 bytes of the salted hash of the data followed by the URI's UTF-8. |
| Resource.ContentUriShape | src/builder.py:487-488 | A content URI is `/a/` followed by 22 URI-unreserved characters, none of them `=`. |
| Resource.ContentUriInjective | src/builder.py:488 | Distinct ids give distinct content URIs. |
| Resource.EtagShape | src/builder.py:487-494 | The etag is quoted. It is `""` for a content URI. Otherwise it holds 20 base85 characters, none of them a quote. |
| Resource.Stored | src/builder.py:517-548 | A body longer than 100000 bytes is stored as FILESYSTEM at `resources/` + base32(id) [+ `-` + encoding]. A shorter one is stored as DATABASE with its bytes. The recorded length is the body's either way. |
| Resource.FileNameInjective | src/builder.py:527-530 | Two bodies stored as files never share a file name unless they have the same id and encoding. |
| Resource.KeptExactly | src/builder.py:550-563 | An encoder's output is kept exactly when it is strictly shorter than the original. It is kept with that output and in encoder order. |
| Resource.KeptDistinct | src/builder.py:550-563 | No encoding is kept twice. |
| Resource.BodiesExactly | src/builder.py:550-563 | The unencoded body always comes first. Each of gzip, deflate and br follows exactly when encoding is asked for and its output is strictly shorter. No encoding appears twice. |
| Resource.NoDeduplication | src/builder.py:485-505 | Byte-identical data inserted twice without a URI derives the same URI, so the second insert fails on the primary key of `uris`. |
| Resource.WrittenKeys | src/builder.py:522-534 | A file is written exactly for each body past the threshold, under that body's path. |
| Resource.WrittenValues | src/builder.py:522-534 | The file written for a body past the threshold holds exactly that body. |
| Store.InsertUri | src/builder.py:421-428 | Inserting into `uris` fails exactly on a taken URI, an action outside the CHECK, or a cache class outside it. It adds exactly that row and leaves the other tables alone. |
| Store.InsertResourceRow | src/builder.py:429-435 | Inserting into `resources` fails exactly on a taken URI or one missing from `uris`. It adds exactly that row. |
| Store.InsertEncoding | src/builder.py:436-445 | Inserting into `encodings` fails exactly on a taken (uri, encoding) pair, a URI missing from `uris`, or a location outside the CHECK. It adds exactly that row. |
| Store.InsertRedirectRow | src/builder.py:446-453 | Inserting into `redirects` fails exactly on a taken URI, one missing from `uris`, or a type outside the CHECK. It adds exactly that row. |
| Store.InsertUriKeepsValid | src/builder.py:421-428 | A successful `uris` insert keeps every declared key and constraint. |
| Store.InsertResourceRowKeepsValid | src/builder.py:429-435 | A successful `resources` insert keeps every declared key and constraint. |
| Store.InsertEncodingKeepsValid | src/builder.py:436-445 | A successful `encodings` insert keeps every declared key and constraint. |
| Store.InsertRedirectRowKeepsValid | src/builder.py:446-453 | A successful `redirects` insert keeps every declared key and constraint. |
| Store.RowsOfDistinct | src/builder.py:436-445 | With distinct encodings, a resource's encodings rows are exactly its bodies, one per (uri, encoding) key. |
| Store.InsertEncodingsSucceeds | src/builder.py:550-563 | A resource's encodings rows all go in exactly when the URI is present, the encodings are distinct and new, and every location is a declared one. |
| Store.AddResource | src/builder.py:496-563 | A successful insert_resource leaves exactly the old tables plus its `uris` row, its `resources` row and its encodings rows. |
| Store.AddResourceSucceeds | src/builder.py:496-563 | On valid tables the rows of a resource go in exactly when its URI is new, its cache class is declared, and its encodings are distinct at declared locations. No existing row changes. |
| Store.AddResourceConsistent | src/builder.py:496-563 | A resource whose first encodings row is the unencoded one keeps the tables consistent. Consistent means valid, every RESOURCE URI has its `resources` row and its unencoded row, and every REDIRECT URI has its `redirects` row. |
| Store.AddRedirect | src/builder.py:926-935 | A manifest REDIRECT adds exactly its `uris` and `redirects` rows. It fails exactly on a taken URI, an undeclared cache class, or an undeclared redirect type. |
| Store.AddRedirectConsistent | src/builder.py:926-935 | A redirect keeps the tables consistent. |
| Store.AddDeletion | src/builder.py:965-968 | A DELETION adds exactly a `uris` row with cache NONE, and fails exactly on a taken URI. |
| Store.AddDeletionConsistent | src/builder.py:965-968 | A deletion keeps the tables consistent. |
| Store.ConsistentAfterRows | src/builder.py:946-968 | Redirect and deletion rows at URIs not yet in the tables keep them consistent and change no existing row. |
| Steps.StartSound | src/builder.py:466-476 | Empty tables with no assets and no renders satisfy the build invariant, whatever history the previous build left. |
| Steps.RowsWellFormed | src/builder.py:550-563 | The encodings rows of a resource start with the unencoded one, never repeat an encoding, and use declared locations only. |
| Steps.ResourceStepSucceeds | src/builder.py:484-514 | On valid tables a resource goes in exactly when its URI is new and its cache class declared. Without a URI of its own, the cache class must also be INDEFINITE. |
| Steps.ResourceStepHolds | src/builder.py:484-565 | A new resource keeps the tables consistent and adds exactly its own URI, as RESOURCE with its cache class and with a `resources` row. |
| Steps.AssetStepSucceeds | src/builder.py:568-574 | insert_asset succeeds exactly when the id is new and its resource goes in. |
| Steps.AssetStepHolds | src/builder.py:568-583 | A new asset keeps the build invariant and only adds to the state. Afterwards `assets[id]` is the URI (the caller's URI when one was given), `history_assets[uri]` is the id, and the renders are unchanged. |
| Steps.RegisterHolds | src/builder.py:574-579 | Recording a new id at the URI its resource just took restores the build invariant. |
| Steps.RenderStepHolds | src/builder.py:660-666 | A new render is inserted as an INDEFINITE asset at its content URI and recorded with its length, keeping the invariant. |
| Steps.RenderedHolds | src/builder.py:623-666 | A render taken from earlier in the build or made new is recorded under its key, and the invariant holds afterwards. |
| Steps.Forget | src/builder.py:906-907 | Dropping a manifest URI removes exactly that URI from the history. Every other history entry keeps its id, and nothing else in the state changes. |
| Steps.ForgetHolds | src/builder.py:906-907 | Dropping a URI from the history keeps the invariant. |
| Steps.PermalinkHolds | src/builder.py:917-923 | A PERMALINK resource at a URI the history no longer names keeps the invariant and adds that URI as RESOURCE. |
| Steps.RedirectHolds | src/builder.py:926-935 | A REDIRECT at a URI the history no longer names keeps the invariant. |
| Markup.FirstTag | src/builder.py:740-747 | The first element with a tag in document order exists exactly when one does, and it has that tag. |
| Markup.AssetOf | src/builder.py:718-722 | An asset element's request is read exactly when it has its type attribute and the attribute its asset attribute names. |
| Markup.PictureOf | src/builder.py:736-752 | A picture is accepted exactly when it has a quality, exactly one img with a `src`, no source element, and no picture nested inside it. Its request is that quality and that `src`. |
| Markup.CollectAssets | src/builder.py:718-730 | Collection succeeds exactly when every asset element is readable. The i-th request is then read from the i-th asset element in document order. |
| Markup.CollectPictures | src/builder.py:736-758 | Collection succeeds exactly when every GRAPHIC picture is accepted. The i-th request is then read from the i-th such picture in document order. |
| Markup.RenderAt | src/builder.py:787-790 | In renders ascending by width, looking up a width finds that width's URI and length. |
| Markup.InsertByKeySorted | src/builder.py:779-781 | One insertion step of the sort keeps the list sorted by length at 1200 and keeps every rendition. |
| Markup.InsertByKeyStable | src/builder.py:779-781 | One insertion step puts a rendition after those of equal key. |
| Markup.SortByKeySorted | src/builder.py:779-781 | The formats are ordered by ascending byte length of their 1200-wide render, as a permutation of the input. |
| Markup.SortByKeyStable | src/builder.py:779-781 | The sort is stable: renditions of equal length keep their table order. |
| Markup.CandidateReadsBack | src/builder.py:790 | A srcset candidate `uri Nw` reads back as its URI and its width. |
| Markup.FallbackUri | src/builder.py:811-816 | The img's new `src` is the 1200-wide render of PNG for LOSSLESS and of JPEG otherwise. It is an error when that format or width was not rendered. |
| Markup.RewriteImg | src/builder.py:773-816 | The img loses `src`, `srcset` and `sizes`, which must all be present, and gets the fallback `src`. Before it come one source per rendered format, sorted by length, each with its srcset and the img's `sizes`. |
| Markup.RewritePicture | src/builder.py:771-772 | The picture loses its quality and type attributes and keeps its tag. |
| Markup.RewriteAsset | src/builder.py:763-766 | An asset element loses its asset and type attributes, and the attribute they named now holds the asset's URI. |
| Markup.Rewrite | src/builder.py:760-816 | The rewrite keeps every element's tag. |
| Markup.RewriteIn | src/builder.py:760-816 | The rewrite keeps the number of children, and each child keeps its tag. |
| Markup.Residue | src/builder.py:820-827 | The sanity check passes exactly when no tag and no attribute of the msssg namespace is left. |
| Builder.DirnameOfJoin | src/builder.py:711-722 | The directory of a path joined as `directory + "/" + file` is that directory again. |
| Builder.ReadDocument | src/builder.py:711-758 | A document is read, parsed and scanned exactly when the file exists, parses, and its asset and picture requests are well formed. A missing file and an unparsable file each give their own error. |
| Builder.Finish | src/builder.py:818-829 | The processed document is the rewrite, and only when nothing of the msssg namespace is left in it. |
| Builder.DocumentOutcome | src/builder.py:700-829 | The element insert_file serializes is the document with every asset reference replaced by the URI its file is registered at, and every picture rewritten with its graphic's registered renditions. Nothing of the msssg namespace is left. |
| Builder.OutcomeGrows | src/builder.py:700-829 | That outcome stays true while the build only adds assets and renders. |
| Builder.DescribedRenditions | src/builder.py:610-681 | The renditions insert_graphic returns have strictly ascending widths, the fallback width among them. Each render's URI is the asset registered for its key. |
| Builder.DescribesExactly | src/builder.py:675-681 | What insert_graphic returns is uniquely determined: the renders recorded for its keys. |
| Builder.RenditionsGrow | src/builder.py:675-681 | Once every render of a graphic is recorded, later steps of the build leave its renditions as they are. |
| Builder.ResolutionCases | src/builder.py:946-968 | For each remaining history entry: an id registered at the same URI adds no row. An id registered elsewhere adds a REDIRECT row with cache NONE and a PERMANENT redirect to the new URI. An id no longer registered adds a DELETION row and no redirect. |
| Builder.ResolutionStep | src/builder.py:946-968 | Resolving one more entry is exactly one of: no insert, that redirect insert, or that deletion insert. |
| Builder.StaleUnserved | src/builder.py:946-968 | Under the build invariant, no URI the resolution writes is in the tables yet, so none of its inserts can fail. |
| Builder.ResolutionConsistent | src/builder.py:946-968 | The resolution keeps the tables consistent and changes no row already there. |
| Builder.ResolutionCovers | src/builder.py:946-968 | After the resolution every URI of the previous build's history is in `uris`. |
| Builder.Site.constructor | src/builder.py:466-476 | A build starts with empty tables, no assets, no renders and no files. It also holds the previous build's history and render cache. |
| Builder.Site.InsertBody | src/builder.py:517-548 | insert_encoding writes a file exactly for a body past the threshold, then inserts that body's row. It fails exactly when the row cannot go in. |
| Builder.Site.InsertBodies | src/builder.py:550-563 | The encodings loop inserts the rows of the bodies in order and writes exactly their files. |
| Builder.Site.InsertEncoded | src/builder.py:550-563 | After the unencoded row, each encoder whose output is strictly shorter adds its row, in encoder order. |
| Builder.Site.InsertResource | src/builder.py:484-565 | insert_resource changes the tables exactly as the resource step says, returns the derived URI, and writes exactly the bodies past the threshold. It fails when there is no URI and the cache class is not INDEFINITE. |
| Builder.Site.InsertAsset | src/builder.py:568-583 | A duplicate id fails and changes nothing. Otherwise the new state is the asset step of the old one, and the stored URI is returned. |
| Builder.Site.Fetch | src/builder.py:637-656 | A render cache entry newer than the source supplies the bytes and nothing changes. Otherwise the image is rendered, and the cache gets the file and an entry with this build's revision. |
| Builder.Site.RenderOnce | src/builder.py:619-673 | A key already rendered in this build is answered from the memo with nothing changed. A new key's bytes are fetched and inserted as an asset, and the memo records its URI and length. The new resource files are exactly those of the bytes at their content URI. Unless the cache already held the render, the cache file of the key now holds the bytes. |
| Builder.Site.Record | src/builder.py:660-667 | A render new to the build is inserted as an INDEFINITE asset with no fixed URI and no encoding. The state moves by one render step, the new resource files are those of the bytes, and the memo maps the key to the content URI and the byte length. |
| Builder.Site.RenderFormat | src/builder.py:615-679 | One format is rendered at every width of the ladder, ascending, keeping the invariant. If its 4000-wide render is neither in the memo nor cached as newer than the source, success implies the source decodes to an image at least 4000 wide. |
| Builder.PendingStep | src/builder.py:615-656 | Each render below the top of the ladder leaves the 4000-wide render pending. Making the top render from the source succeeds only when the source is at least 4000 wide. |
| Builder.Site.InsertGraphic | src/builder.py:589-681 | A missing file is an error. Otherwise every selected format is rendered at every ladder width, the invariant is kept, and the result is the recorded renditions in format order. Suppose the first format's 4000-wide render is neither in the memo nor cached as newer than the file. Then a file narrower than 4000 fails the graphic, and with it the build. |
| Builder.Site.InsertFile | src/builder.py:684-855 | A path already registered returns its stored URI with nothing changed, unless a different non-empty URI is asked for, which fails. A new path with an empty type fails. On success the path's id is registered at a new RESOURCE URI with the given cache class. That URI is derived from the file's bytes, or for a document from the serialized processed document. The resource is stored under the given type, except that a document is stored as XHTML. |
| Builder.Site.InsertDocument | src/builder.py:700-855 | The processed document, serialized, is registered as the asset of the path, and it is the outcome of processing that document. It is stored as XHTML. |
| Builder.Site.ProcessDocument | src/builder.py:700-829 | The returned element is the document's outcome against the final assets and renders, and the invariant holds. |
| Builder.Site.InsertReferences | src/builder.py:718-766 | Each asset reference is inserted relative to the document's directory. The URIs returned are the ones registered for them, in order. A reference beyond the nesting bound fails. |
| Builder.Site.InsertPictures | src/builder.py:736-769 | Each picture's img is inserted as a graphic at the picture's level, and the renditions returned are the recorded ones, in order. |
| Builder.Site.ProcessLink | src/builder.py:904-938 | A missing or unknown action fails. RESOURCE registers the file at the URI with the entry's cache class, NONE when the entry gives none, and a new file is stored under the entry's type (XHTML for a document). PERMALINK with cache INDEFINITE fails; otherwise it inserts the file as a resource of its own. REDIRECT inserts its two rows. The URI's history entry is dropped, and the URI is in `uris` afterwards. |
| Builder.Site.ServeFile | src/builder.py:911-914 | A RESOURCE entry without a path fails. Otherwise its file is registered at the URI, which is in `uris` afterwards, and the invariant holds. A path new to the build gets a RESOURCE row with the entry's cache class, NONE when the entry gives none, and is stored under the entry's type (XHTML for a document). |
| Builder.Site.ServePermalink | src/builder.py:917-923 | A PERMALINK is never cached INDEFINITE. Otherwise its file is inserted as an encoded resource at the URI. |
| Builder.Site.ServeRedirect | src/builder.py:926-935 | A REDIRECT inserts exactly its `uris` and `redirects` rows. |
| Builder.Site.ResolveHistory | src/builder.py:946-968 | The history loop leaves exactly the resolved tables. They are consistent, extend the old ones, and hold every history URI. |
| Builder.Site.Resolve | src/builder.py:946-968 | The loop over the history entries, in any order, computes the resolution of all of them. |
| Builder.Site.Build | src/builder.py:480-968 | A manifest without `~notfound` fails before anything changes. A successful build leaves consistent tables that hold `~notfound`, every manifest URI and every URI of the previous build's history. |
| Server.SingleValue | src/server.php:38-41 | One distinct value remains exactly when every value sent is the first one. |
| Server.RequestEtagUniform | src/server.php:34-41 | When every comma-separated value trims to the same string, that string is the etag compared. |
| Server.RequestEtagMixed | src/server.php:34-41 | Two different values make the compared etag `""`. |
| Server.ParseIfNoneMatch | src/server.php:34-41 | The If-None-Match loop yields the etag the specification function defines. |
| Server.AcceptedEncodingsExactly | src/server.php:44-59 | The identity encoding comes first and nothing is accepted twice. A coding is accepted exactly when the lowercased, space-free header names it, whatever its q-value (q=0 included). |
| Server.ParseAcceptEncoding | src/server.php:44-59 | The Accept-Encoding loop yields exactly the accepted encodings. |
| Server.RowColumns | src/server.php:63-80 | A joined row carries its URI's action and cache class. A RESOURCE row carries its encoding's location and length, and its data is NULL exactly when the resource's etag equals the request's. A REDIRECT row carries its type and target. |
| Server.Best | src/server.php:81-90 | The chosen row is a candidate: its URI is the path or `~notfound`, and its encoding is accepted or absent. No row is chosen only when there is no candidate. |
| Server.BestMinimal | src/server.php:87-90 | No candidate comes before the chosen row in (uri, length) order. |
| Server.SelectRow | src/server.php:63-101 | The query returns the first candidate by (uri, length). |
| Server.CacheControl | src/server.php:116-141 | The cache switch accepts exactly NONE, INSTANT, SHORT, MEDIUM, LONG and INDEFINITE, and throws otherwise. Only NONE sends no Cache-Control. |
| Server.Respond | src/server.php:116-216 | The row alone decides the response. 304 exactly for a RESOURCE with NULL data. 404 exactly for `~notfound` served in full. A body exactly with 200 and 404, and it is the row's stored payload. No ETag for `~notfound`. Cache-Control exactly when the class is not NONE. 301 or 302 with Location for a redirect. Content-Type and Content-Length with every body. A cached resource carries Vary and, unless it is `~notfound`, the row's ETag. A body under a non-empty encoding carries that encoding as Content-Encoding. Throws exactly on an unknown cache class, location, redirect type or action. |
| Server.ResponseHeaders | src/server.php:143-215 | 302 exactly for TEMPORARY, 301 exactly for PERMANENT, 410 exactly for DELETION. Vary exactly for a cached resource. ETag exactly for a cached resource other than `~notfound`. Content-Encoding exactly for a body under a non-empty encoding. |
| Server.Serve | src/server.php:31-216 | A request is answered as the parse, select and respond specification says. |
| Server.SlashBeforeNotFound | src/server.php:82-89 | A path starting with `/` sorts before `~notfound`. |
| Server.RowAt | src/server.php:76-86 | Every URI of consistent tables has a row that the encoding filter keeps. |
| Server.BestUri | src/server.php:81-90 | The chosen URI is the path when the path has a row and sorts no later than `~notfound`, and `~notfound` otherwise. |
| Server.ChosenUri | src/server.php:63-101 | Over consistent tables holding `~notfound` a row is always found, and it is the path's row exactly when the path has one that sorts first. |
| Server.ChosenShortest | src/server.php:84-89 | A resource is answered from an accepted encoding it has, the shortest of those. |
| Server.ChosenColumns | src/server.php:63-80 | The chosen row carries its URI's columns from the tables. |
| Server.RowAnswers | src/server.php:72-162 | Over consistent tables every joined row gets a response without an exception. It is 304 exactly when the resource's etag is the request's, and 404 exactly when `~notfound` is sent in full. |
| Server.ConsistentAnswers | src/server.php:63-216 | For tables the builder can produce, every request gets a response. It is 304 exactly when the served resource's etag is the request's, and 404 exactly when the not-found page is served in full. |

## Left out

- Concurrency: `PTask`/`NTask`, the process pool, threads, the lock and the polling waits are replaced by direct calls in a fixed order. Assets come before graphics, in document order.
- Foreign calls are fields of `Host.Env`, which `Builder.Site` receives: sha3-256, gzip/deflate/br, `os.path.relpath`, PIL's decode, resize and save (including the `avifenc`/`cjxl` subprocesses), lxml's parse and serialization, and the build revision.
- Builder.RenderImage: the resized height and the encoder's output are `Env.encodeImage`. Only the quality resolution and the width check are modelled.
- Quality.Resolve: Python computes the interpolant in floating point. The model uses exact rationals. At the table's anchors the two agree, and ties such as 28.5 are exact in binary.
- File system: the source files, the render cache files and `www/` are maps. Directory setup, `shutil`, the SQLite in-memory database and its backup to disk, and the JSON load and dump of the two caches are I/O and are left out.
- Source modification times and the build revision are `int` revisions compared with `<`. The `astropy` conversion to TAI floats is left out.
- The XML tree is an abstract element (tag, attribute map, children). CSS selection is a walk in document order. `cleanup_namespaces` and namespace prefixes are not modelled.
- Markup.Rewrite, Markup.RewriteIn: their own contracts keep only tags and child counts. What the rewrite produces is stated through RewriteAsset, RewritePicture, RewriteImg and Builder.DocumentOutcome.
- Builder.Site.InsertFile: insert_file recursion through a document's references carries a `fuel` bound. A reference chain deeper than the bound fails with ReferenceDepth, where the Python code would recurse without end on a cycle.
- Builder.Site.Build: after an error, the builder's methods promise only that rows and registrations were added. The Python code aborts the whole build on any exception, so no later step reads that state.
- The animation process, the `print`/`traceback` reporting and `exit` are left out.
- The `data-lengths` debugging attribute is modelled, because the code emits it. The commented-out experiments are not.
- The scan order SQLite uses to break ties between candidate rows of equal (uri, length) is a parameter (`order`). Every lemma holds for any scan order.
- Server.CacheControl: the contract states which classes are accepted and that only NONE sends nothing. The header strings for each class are in its body.
- The basic-auth gate (src/server.php:14-19), the Server-Timing header (line 109), `parse_url`, and the `echo`/`readfile` output of the body are left out. The body is returned as the stored payload (bytes or file path).
- PHP's `assert` calls (src/server.php:114 and 166) are not modelled. The lemmas prove instead that a row is always found over tables the builder produces.
- PHP turns numeric-string array keys into integers. The header loops treat every value as a string.
- The research scripts (`research/`) benchmark image codecs. They are not part of the build.
