# dcloud-frontend, modelled in Dafny

DCloud is a Next.js front end for a Solana program that stores file records on chain, with the
file contents kept on IPFS. This project models the rules of the front end that can be stated
without the network:

- the client adapter (`lib/anchorClient.ts`), covering:
  - the seeds of the program-derived storage and file addresses;
  - the 32-character unique file identifier;
  - the guard clauses every wrapper runs before it talks to the chain;
  - the two error coercions (`storageAccountExists` turns a failure into `false`, and
    `getFileByHash` turns it into `null`);
  - the mapping, public filter and newest-first sort of fetched records;
- the string helpers `short`, `toHex` and `isValidPubkey` (`lib/utils.ts`);
- the browse page (`app/browse/page.tsx`), covering:
  - the name search, which narrows the list currently shown;
  - the network statistics;
  - the owner label;
  - the best-effort download;
- the home page (`app/page.tsx`): a state machine over `storageExists`, `storageInitialized`
  and `isInitializing`.

Remote calls are not performed. A wrapper is a method that is given the chain's reply as a
parameter and returns the request it would send, as `sent`. `sent` is `None` (or an empty
sequence) when the wrapper stops before any call.

A key is its 32 bytes, and its text is their Base58 form over the Bitcoin alphabet, which reads
back as the same key. A seed is a byte string: the tags are written in UTF-8 and the key as its
32 bytes, and the file hash seed is the UTF-8 form of the first 32 characters of the hash.
`PublicKey.findProgramAddressSync` refuses a seed longer than 32 bytes, so a file hash whose
first 32 characters take more than 32 bytes in UTF-8 makes `derivePdas` throw "Max seed length
exceeded". One such hash has at least 32 characters, one of which is beyond ASCII.
Otherwise it searches on the concatenated seed bytes; it is modelled by a function parameter
`find` of type `AddressSearch`, from that concatenation to an address. An address has only 32
bytes, so no such function is free of collisions on all inputs. Where distinct addresses
matter, a lemma therefore assumes only that `find` separates the two byte strings it compares
(`Chain.Separates`), and proves that those byte strings differ. The SHA-256 digest and `Date.now()` are parameters of
`CreateUniqueFileHash`. The ECMAScript built-ins the code relies on are written out in
`JsStrings`: `slice` with its negative and clamped indices and `-0 == 0`, `includes`, `trim`,
`toLowerCase`, `toString(radix)` and `padStart`.

Files:

| file | module | contents |
|---|---|---|
| wrappers.dfy | Wrappers | `Option`, `Result`, `Outcome` |
| encoding.dfy | Encoding | bytes, UTF-8, Base58 |
| js_strings.dfy | JsStrings | the ECMAScript string built-ins |
| chain.dfy | Chain | `PublicKey`, its Base58 text, address seeds, the address search |
| utils.dfy | Utils | `short`, `toHex` and its decoder, `isValidPubkey` |
| anchor_client.dfy | AnchorClient | records, seeds, the unique identifier, the wrappers, list post-processing |
| browse.dfy | Browse | search, statistics, owner label, class `BrowsePage` |
| home.dfy | Home | class `HomePage` |

Two behaviours of the code are modelled as written and stated by lemmas:

- A search filters the list currently shown, not the list loaded. Clearing the search box
  therefore does not bring removed files back (`Browse.ClearingDoesNotRestore`).
- In `handleDownload`, the refresh after a recorded download shares its `catch` with the
  recording call. A failed refresh therefore opens the IPFS link a second time
  (`Browse.BrowsePage.HandleDownload`, the case in which `tabs`, the links opened, has two
  entries).

## Model

| member | source | states |
|---|---|---|
| Encoding.EncodeChar | dcloud-frontend/lib/anchorClient.ts:49 | one code point takes one to four bytes |
| Encoding.EncodeCharDecodes | dcloud-frontend/lib/anchorClient.ts:49 | the first byte of an encoded code point announces its length, and the bytes give back the code point |
| Encoding.Utf8 | dcloud-frontend/lib/anchorClient.ts:36-49 | `Buffer.from(s, "utf8")`: at least one and at most four bytes per character |
| Encoding.Utf8OfAscii | dcloud-frontend/lib/anchorClient.ts:36-49 | ASCII text is one byte per character, each its character code |
| Encoding.Utf8LongerPastAscii | dcloud-frontend/lib/anchorClient.ts:49 | a text with a character beyond ASCII has more bytes than characters |
| Encoding.Utf8Injective | dcloud-frontend/lib/anchorClient.ts:49 | different texts have different UTF-8 forms |
| Encoding.Base58RoundTrip | dcloud-frontend/lib/anchorClient.ts:346 | Base58 decoding of the encoding of any byte string gives back exactly those bytes, leading zero bytes included |
| Chain.ToBase58 | dcloud-frontend/lib/anchorClient.ts:346-358 | `key.toBase58()` and `key.toString()`: the Base58 form of the key's 32 bytes, which reads back as the key |
| Chain.KeyTextRoundTrip | dcloud-frontend/lib/anchorClient.ts:357-358 | `key.toString()` reads back as the same key, so different keys have different texts |
| Chain.FindProgramAddress | dcloud-frontend/lib/anchorClient.ts:35-38 | a failure exactly when some seed is longer than 32 bytes; otherwise the search on the concatenated seeds |
| JsStrings.Slice | dcloud-frontend/lib/utils.ts:3 | `s.slice(start, end)`: the length is the clamped distance between the two relative indices, and character `i` is character `from + i` of `s` |
| JsStrings.SlicePrefix | dcloud-frontend/lib/anchorClient.ts:44 | `slice(0, n)` with `n >= 0` is the prefix of length `min(n, |s|)` |
| JsStrings.SliceSuffix | dcloud-frontend/lib/anchorClient.ts:69 | `slice(-n)` is the last `n` characters when `0 < n <= |s|`, and the whole string when `n == 0` or `n > |s|` |
| JsStrings.SliceFrom | dcloud-frontend/lib/utils.ts:3 | `s.slice(start)` is the whole tail of `s` from the relative index of `start` |
| JsStrings.Includes | dcloud-frontend/app/browse/page.tsx:91 | `s.includes(t)` exactly when `t` is a substring `s[i..j]`; then `t` is no longer than `s` |
| JsStrings.IncludesEmpty | dcloud-frontend/app/browse/page.tsx:91 | every string includes the empty string |
| JsStrings.IncludesTransitive | dcloud-frontend/app/browse/page.tsx:91 | a string that includes `t`, where `t` includes `u`, includes `u` |
| JsStrings.Trim | dcloud-frontend/app/browse/page.tsx:85 | the result is the middle of `s`: everything cut on either side is ECMAScript white space, and the result neither starts nor ends with white space |
| JsStrings.TrimEmptyIff | dcloud-frontend/app/browse/page.tsx:85-88 | trimming leaves the empty string exactly when every character is white space |
| JsStrings.ToLowerCase | dcloud-frontend/app/browse/page.tsx:85 | same length; each character is lower-cased on its own |
| JsStrings.ToStringRadix | dcloud-frontend/lib/anchorClient.ts:64 | `n.toString(radix)` has at least one digit |
| JsStrings.RadixDigits | dcloud-frontend/lib/anchorClient.ts:64 | every character of `n.toString(radix)` is a digit of that radix |
| JsStrings.DecimalString | dcloud-frontend/lib/anchorClient.ts:68 | `n.toString()` is a non-empty string of decimal digits |
| JsStrings.DecimalStringValue | dcloud-frontend/lib/anchorClient.ts:68 | the decimal numeral of `n` reads back as `n` |
| JsStrings.DecimalStringLength | dcloud-frontend/lib/anchorClient.ts:68-69 | for `k >= 1`, the numeral of `n` has at most `k` digits exactly when `n < 10^k` |
| JsStrings.DecimalSuffixValue | dcloud-frontend/lib/anchorClient.ts:68-69 | the last `k` digits of the numeral of `n` spell `n mod 10^k` |
| JsStrings.LastDigitsIsMod | dcloud-frontend/lib/anchorClient.ts:69 | the digit-by-digit value of the last `k` digits equals `n mod 10^k` |
| JsStrings.PadStart | dcloud-frontend/lib/anchorClient.ts:64 | `padStart(len, c)`: the length is `max(len, |s|)`, `s` is a suffix, and everything in front of it is `c` |
| Utils.Short | dcloud-frontend/lib/utils.ts:3 | `short(s, n)`, `n` defaulting to 6: for `0 < n <= |s|`, the first `n` characters, `…`, the last `n` (length `2n+1`); for `n >= |s|`, `s + "…" + s`; for `n == 0`, `"…" + s`; for negative `n`, the clamped slices |
| Utils.ToHex | dcloud-frontend/lib/utils.ts:4 | two characters per byte |
| Utils.ToHexPairs | dcloud-frontend/lib/utils.ts:4 | characters `2k` and `2k+1` are the two lower-case hexadecimal digits of byte `k`, so the text uses `0-9a-f` only |
| Utils.FromHexToHex | dcloud-frontend/lib/utils.ts:4 | decoding the text two digits at a time gives back the bytes |
| Utils.ToHexInjective | dcloud-frontend/lib/utils.ts:4 | different byte strings have different texts |
| Utils.IsValidPubkey | dcloud-frontend/lib/utils.ts:6-13 | true exactly when the key constructor accepts the text; a failure is caught and never escapes |
| AnchorClient.Ready | dcloud-frontend/lib/anchorClient.ts:78 | the wallet guard passes exactly for a present, connected wallet that carries a key |
| AnchorClient.TagBytes | dcloud-frontend/lib/anchorClient.ts:36-47 | the UTF-8 bytes of the tags `storage` and `file` |
| AnchorClient.FileHashCut | dcloud-frontend/lib/anchorClient.ts:44 | `fileHash.slice(0, 32)` is the prefix of the first `min(32, |fileHash|)` characters |
| AnchorClient.StorageSeeds | dcloud-frontend/lib/anchorClient.ts:35-38 | the storage seeds always fit the 32-byte limit, and concatenate to `"storage"` in UTF-8 followed by the key's bytes |
| AnchorClient.FileSeeds | dcloud-frontend/lib/anchorClient.ts:46-50 | the file seeds fit the limit exactly when the cut hash is at most 32 bytes in UTF-8, and concatenate to `"file"`, the key's bytes, then the cut hash in UTF-8 |
| AnchorClient.DerivePdas | dcloud-frontend/lib/anchorClient.ts:30-56 | "User public key is required" when the key is missing; "Max seed length exceeded" when a non-empty hash's cut is over 32 bytes in UTF-8; no error otherwise; the storage address is the search on `"storage"` and the key's bytes; the file address exists exactly when the hash is not empty, and is the search on `"file"`, the key's bytes and the UTF-8 form of the first 32 characters |
| AnchorClient.StorageAddressIgnoresFileHash | dcloud-frontend/lib/anchorClient.ts:35-38 | whenever derivation succeeds, the storage address is the one derived without a file hash |
| AnchorClient.SharedPrefixSharesFileAddress | dcloud-frontend/lib/anchorClient.ts:42-52 | two hashes that agree on their first 32 characters get the same outcome: the same addresses or the same failure |
| AnchorClient.AsciiHashFits | dcloud-frontend/lib/anchorClient.ts:44-52 | a hash whose first 32 characters are ASCII always fits its seed |
| AnchorClient.WideCharacterOverflowsSeed | dcloud-frontend/lib/anchorClient.ts:44-52 | a hash of at least 32 characters with a character beyond ASCII among the first 32 does not fit, so derivation fails |
| AnchorClient.FileSeedBytesInjective | dcloud-frontend/lib/anchorClient.ts:46-50 | equal file seed bytes mean the same owner and the same cut hash |
| AnchorClient.StorageAndFileSeedBytesDiffer | dcloud-frontend/lib/anchorClient.ts:35-50 | storage seed bytes are never file seed bytes: they start with `s` and `f` |
| AnchorClient.DistinctStorageAddresses | dcloud-frontend/lib/anchorClient.ts:35-38 | when the search separates the two seed strings, different owners get different storage addresses |
| AnchorClient.DistinctFileAddresses | dcloud-frontend/lib/anchorClient.ts:42-52 | for hashes that fit, when the search separates the two seed strings, different owners or different 32-character cuts give different file addresses |
| AnchorClient.StorageAndFileAddressesDiffer | dcloud-frontend/lib/anchorClient.ts:35-52 | for a hash that fits, when the search separates the two seed strings, no storage address is a file address |
| AnchorClient.PaddedRadix16IsHexByte | dcloud-frontend/lib/anchorClient.ts:64 | `b.toString(16).padStart(2, "0")` is the two-digit hexadecimal form of the byte |
| AnchorClient.HexJoin | dcloud-frontend/lib/anchorClient.ts:62-65 | the mapped and joined digest equals `toHex` of the digest |
| AnchorClient.CreateUniqueFileHash | dcloud-frontend/lib/anchorClient.ts:59-70 | the first 24 hexadecimal digits of the digest, then the last 8 digits of the time (all of them when there are fewer) |
| AnchorClient.UniqueFileHashShape | dcloud-frontend/lib/anchorClient.ts:59-70 | for a 32-byte digest and a time of at least 8 digits: 32 characters; the first 24 are those of the hexadecimal digest; the last 8 spell the time modulo 10^8 |
| AnchorClient.UniqueFileHashAlphabet | dcloud-frontend/lib/anchorClient.ts:63-69 | every character is a lower-case hexadecimal digit, and those after the hexadecimal part are decimal digits |
| AnchorClient.UniqueFileHashSurvivesTruncation | dcloud-frontend/lib/anchorClient.ts:44-69 | such an identifier passes the 32-character cut of the file seed unchanged and fits the 32-byte seed limit, so derivation never fails for it |
| AnchorClient.InitializeStorage | dcloud-frontend/lib/anchorClient.ts:77-106 | without a connected wallet and key: no request, the "not connected" error; otherwise it sends `initializeStorage` with the user and the storage address, and returns that address or the chain's error |
| AnchorClient.UploadFile | dcloud-frontend/lib/anchorClient.ts:143-195 | the wallet guard, then an empty hash, name or IPFS hash is refused before any request; a hash whose seed is over 32 bytes fails with "Max seed length exceeded" before any request; otherwise it sends `uploadFile` with all arguments and the storage and file addresses, and returns the file address or the chain's error |
| AnchorClient.ShareFile | dcloud-frontend/lib/anchorClient.ts:227-259 | the wallet guard, then an empty hash is refused before any request, and so is a hash whose seed is over 32 bytes ("Max seed length exceeded"); otherwise it sends `shareFile(isPublic)` for the file address and passes on the outcome |
| AnchorClient.DeleteFile | dcloud-frontend/lib/anchorClient.ts:262-291 | the same guards, including the seed-length failure; `deleteFile` is sent with the storage and file addresses |
| AnchorClient.DownloadFile | dcloud-frontend/lib/anchorClient.ts:294-322 | the same guards, including the seed-length failure; `downloadFile(fileHash)` is sent for the file address |
| AnchorClient.GetStorageInfo | dcloud-frontend/lib/anchorClient.ts:109-127 | a missing wallet, then a missing owner, is refused before any request; otherwise the owner's storage address is fetched and the reply returned |
| AnchorClient.StorageAccountExists | dcloud-frontend/lib/anchorClient.ts:130-140 | true exactly when a wallet and owner are given and the fetch succeeds; every failure, including the guards, is false |
| AnchorClient.GetFile | dcloud-frontend/lib/anchorClient.ts:198-224 | wallet, owner, then hash guards, then the seed-length failure, before any request; otherwise the file address is fetched and the reply returned |
| AnchorClient.ToFileData | dcloud-frontend/lib/anchorClient.ts:356-368 | the view writes both keys as Base58 text and copies every other field: reading the address and record back from it gives the original pair |
| AnchorClient.ToFileDataInjective | dcloud-frontend/lib/anchorClient.ts:356-368 | different records or addresses give different views |
| AnchorClient.MapAccounts | dcloud-frontend/lib/anchorClient.ts:356-368 | one view per record, in order |
| AnchorClient.KeepPublic | dcloud-frontend/lib/anchorClient.ts:389-390 | each public record is kept as often as it occurs, and no other record is kept |
| AnchorClient.KeepPublicShrinks | dcloud-frontend/lib/anchorClient.ts:389-390 | the filter never lengthens the list |
| AnchorClient.InsertNewest | dcloud-frontend/lib/anchorClient.ts:370 | one insertion step of the in-place sort keeps the elements and extends the sorted prefix by one |
| AnchorClient.SortNewestFirst | dcloud-frontend/lib/anchorClient.ts:370 | in place: upload times never increase along the array, and its elements are a permutation of the original ones |
| AnchorClient.SortedViews | dcloud-frontend/lib/anchorClient.ts:356-370 | the views of the records, as a permutation, newest first |
| AnchorClient.GetUserFiles | dcloud-frontend/lib/anchorClient.ts:325-375 | a missing wallet, then a missing key, is refused; the key is the owner if given, else the wallet's key; the listing is filtered on the owner field at offset 8; the result is a permutation of the fetched views, newest first, or the chain's error |
| AnchorClient.UserFilesBelongToOwner | dcloud-frontend/lib/anchorClient.ts:342-370 | when every fetched record belongs to the key, so does every returned file |
| AnchorClient.GetPublicFiles | dcloud-frontend/lib/anchorClient.ts:378-410 | a missing wallet is refused; all records are listed; the result is a permutation of the views of the public ones, newest first, or the chain's error |
| AnchorClient.PublicFilesArePublicRecords | dcloud-frontend/lib/anchorClient.ts:387-405 | every returned file is public and is the view of a public record fetched |
| AnchorClient.PublicRecordsAreListed | dcloud-frontend/lib/anchorClient.ts:387-405 | the view of every public record fetched is returned |
| AnchorClient.PublicFilesCount | dcloud-frontend/lib/anchorClient.ts:389-405 | as many files as public records, never more than were fetched |
| AnchorClient.GetFileByHash | dcloud-frontend/lib/anchorClient.ts:413-445 | a request is sent exactly when wallet, owner and hash are present and the hash's seed fits; the result is present exactly when the fetch then succeeds, and it is the record's view keyed by the derived file address; every failure is `null` |
| Browse.IpfsUrl | dcloud-frontend/app/browse/page.tsx:64 | the link is the gateway prefix followed by the IPFS hash, nothing else |
| Browse.SearchTerm | dcloud-frontend/app/browse/page.tsx:85 | the term is no longer than the input, has no ASCII capital, and is empty exactly when the input is all white space |
| Browse.NameMatches | dcloud-frontend/app/browse/page.tsx:91 | the empty term matches every name; a term longer than the name matches none |
| Browse.FilterByName | dcloud-frontend/app/browse/page.tsx:90-92 | the result holds exactly the items whose lower-cased name includes the term, each as often as in the list, in their original order |
| Browse.FilterNeverGrows | dcloud-frontend/app/browse/page.tsx:90-93 | a search never lengthens the list |
| Browse.SearchesNarrowCumulatively | dcloud-frontend/app/browse/page.tsx:84-94 | two searches in a row keep exactly the items matching both terms, each as often as in the list, in order |
| Browse.RefinedSearch | dcloud-frontend/app/browse/page.tsx:84-94 | when the new term contains the old one, narrowing the narrowed list equals searching the original list for the new term |
| Browse.EmptyTermKeepsAll | dcloud-frontend/app/browse/page.tsx:90-92 | the empty term keeps every item |
| Browse.BlankInputKeepsList | dcloud-frontend/app/browse/page.tsx:85-93 | an empty or all-white-space input leaves the list unchanged |
| Browse.ClearingDoesNotRestore | dcloud-frontend/app/browse/page.tsx:84-94 | clearing the box after a search leaves the narrowed list |
| Browse.Stats | dcloud-frontend/app/browse/page.tsx:223-249 | the panel is shown exactly when the list is not empty |
| Browse.SumOf | dcloud-frontend/app/browse/page.tsx:239 | the `reduce` total of the empty list is 0, and no single file counts for more than the total |
| Browse.SumOfAppend | dcloud-frontend/app/browse/page.tsx:239 | the running sum of a concatenation is the sum of the two sums |
| Browse.SumOfPermutation | dcloud-frontend/app/browse/page.tsx:239-248 | the totals do not depend on the order of the files |
| Browse.StatsOfPublicListing | dcloud-frontend/app/browse/page.tsx:223-249 | the statistics of the public listing are those of the public records fetched, whatever order the sort leaves |
| Browse.SumOfSubsequence | dcloud-frontend/app/browse/page.tsx:239-248 | deleting files never increases a total |
| Browse.SearchNeverIncreasesTotals | dcloud-frontend/app/browse/page.tsx:84-94 | a search never increases the total size or the total downloads |
| Browse.OwnerLabel | dcloud-frontend/app/browse/page.tsx:190 | for an owner of at least 8 characters: the first 8, `...`, the last 8 (19 characters); for a shorter one, `owner + "..." + owner` |
| Browse.BrowsePage.constructor | dcloud-frontend/app/browse/page.tsx:24-26 | not mounted, not loading, no files |
| Browse.BrowsePage.Mount | dcloud-frontend/app/browse/page.tsx:29-31 | mounted; nothing else changes |
| Browse.BrowsePage.LoadPublicFiles | dcloud-frontend/app/browse/page.tsx:34-51 | nothing happens before mount; afterwards all records are listed; on success the list is the public listing (a permutation of the public views, newest first); on failure the list is kept; loading ends false |
| Browse.BrowsePage.FilterPublic | dcloud-frontend/app/browse/page.tsx:84-94 | the new list is the current list filtered by the trimmed, lower-cased input |
| Browse.BrowsePage.HandleDownload | dcloud-frontend/app/browse/page.tsx:53-76 | without a connected wallet and key: an alert, no request, no link; otherwise the IPFS link is opened whatever happens; an empty hash, a hash whose seed is over 32 bytes, or a failed recording opens it once; after a recorded access the list is refreshed, and a failed refresh opens the link a second time |
| Home.IsAlreadyInUse | dcloud-frontend/app/page.tsx:77 | the bare phrase "already in use" is recognised, and a message shorter than the phrase never is |
| Home.HomePage.constructor | dcloud-frontend/app/page.tsx:10-13 | all four flags false |
| Home.HomePage.Mount | dcloud-frontend/app/page.tsx:16-18 | mounted; nothing else changes |
| Home.HomePage.CheckStorageAccount | dcloud-frontend/app/page.tsx:22-46 | with a connected wallet and key, the storage address is fetched and both flags become whether that succeeded; otherwise nothing is sent and both flags become false; the flags agree afterwards |
| Home.HomePage.OnWalletChange | dcloud-frontend/app/page.tsx:21-51 | before mount, nothing is sent and nothing changes; once mounted, the check above runs; agreement of the flags is kept |
| Home.HomePage.HandleInit | dcloud-frontend/app/page.tsx:53-87 | disconnected, or no key: that alert, no request, nothing changes; otherwise the page is busy while the request is sent and idle afterwards; success, or an error containing "already in use", sets both flags; any other error keeps them and alerts with its message; agreement of the flags is kept |

## Left out

- `getProvider`, `getProgram` and the `.rpc()`, `.fetch()` and `.all()` calls: network and SDK state. Each call is a request value returned to the caller, and its reply is a parameter.
- `PublicKey.findProgramAddressSync`: the SHA-256 hash and bump search inside the Solana library. It is the parameter `find`, applied to the concatenated seed bytes; the program id and the bump are folded into it. Its 32-byte seed limit is modelled. Its failure when no bump gives an address off the curve is not modelled, because no input is known to cause it.
- The `systemProgram` account passed to `initializeStorage` and `uploadFile`: a constant, left implicit in `Accounts`.
- `AnchorClient.UploadFile`: `fileSize` is an unbounded natural. `new anchor.BN(fileSize)` throws for 2^53 or more, and the program's `u64` argument overflows for 2^64 or more. Neither failure is modelled.
- `crypto.subtle.digest` and `Date.now()`: parameters of `AnchorClient.CreateUniqueFileHash`.
- `AnchorClient.ToFileData`: keeps the record's `u64` and `i64` values. The conversion `toNumber` is not modelled. bn.js throws for a value of 2^53 or more, A value of 2^53 or more would make `getUserFiles` fail for any of the owner's records. `getPublicFiles` would fail only for a public record, since its filter runs before the mapping. `getFileByHash` would return `null` for the record it reads.
- `Utils.IsValidPubkey`: the key constructor is a parameter. Which texts `new PublicKey` accepts is the library's rule and is not modelled here.
- `JsStrings.ToLowerCase`: maps only the ASCII letters. JavaScript's full Unicode case mapping is not modelled.
- Strings are sequences of Unicode scalar values, not UTF-16 code units. A character outside the Basic Multilingual Plane is one position here and two in JavaScript, so `slice` and `.length` on such text are not modelled faithfully. A string holding half of a surrogate pair cannot be written, so `Buffer.from`'s replacement of it by U+FFFD is not modelled.
- `AnchorClient.SortNewestFirst`: does not state stability. It is stable, as `Array.prototype.sort` is, but the contract says only sorted and a permutation.
- Asynchrony: each handler runs to completion. Interleavings of effects with handlers, and React's batching of state updates, are not modelled. The disabled initialise button while busy is not modelled either.
- The `catch` in `checkStorageAccount`: unreachable, because `storageAccountExists` never throws. `Home.HomePage.CheckStorageAccount` has no such branch.
- `alert`, `console` output and `window.open`: alerts are returned as strings; opened links are returned as the sequence `tabs`.
- `formatFileSize`, the upload date display and the "Direct IPFS Link" button on the browse page: floating-point and locale formatting, or a one-line link with no rule.
- `app/storage/page.tsx`, `app/files/page.tsx`, `app/upload/page.tsx`, `lib/idl.ts` (except the field widths of the records), the components, the layout and the build configuration: display and wiring without rules of their own, commented-out code, or a module that is not part of this model.
