/** The browse page (`app/browse/page.tsx`): the public listing, the name search that narrows
    the current list, the network statistics, the owner label and the best-effort download. */
module Browse {
  import opened Wrappers
  import opened JsStrings
  import opened Chain
  import opened AnchorClient

  const IpfsGateway := "https://ipfs.io/ipfs/"

  /** The alert shown when a download is asked for without a connected wallet. */
  const ConnectToDownload := "Please connect your wallet to download files"

  /** The gateway link opened for a file: the gateway, then the content hash. */
  function IpfsUrl(ipfsHash: string): (r: string)
    ensures |r| == |IpfsGateway| + |ipfsHash|
    ensures r[..|IpfsGateway|] == IpfsGateway && r[|IpfsGateway|..] == ipfsHash
  {
    IpfsGateway + ipfsHash
  }

  // ---------------------------------------------------------------- search

  /** `e.target.value.trim().toLowerCase()`: no longer than the input, without an ASCII
      capital, and empty exactly when the input is blank. */
  function SearchTerm(input: string): (r: string)
    ensures |r| <= |input|
    ensures forall i :: 0 <= i < |r| ==> !('A' <= r[i] <= 'Z')
    ensures r == [] <==> forall i :: 0 <= i < |input| ==> IsWhiteSpace(input[i])
  {
    TrimEmptyIff(input);
    ToLowerCase(Trim(input))
  }

  /** `item.fileName.toLowerCase().includes(term)`: the empty term matches every name, and
      a term longer than the name matches none. */
  function NameMatches(item: FileData, term: string): (b: bool)
    ensures term == [] ==> b
    ensures |term| > |item.fileName| ==> !b
  {
    IncludesEmpty(ToLowerCase(item.fileName));
    Includes(ToLowerCase(item.fileName), term)
  }

  /** `a` is `b` with some elements deleted, the rest in their order. */
  predicate Subsequence<T(==)>(a: seq<T>, b: seq<T>)
    decreases |b|
  {
    a == [] || (b != [] && ((a[0] == b[0] && Subsequence(a[1..], b[1..])) || Subsequence(a, b[1..])))
  }

  lemma {:induction false} SubsequenceTransitive<T>(a: seq<T>, b: seq<T>, c: seq<T>)
    requires Subsequence(a, b) && Subsequence(b, c)
    ensures Subsequence(a, c)
    decreases |c|
  {
    if a != [] {
      if Subsequence(b, c[1..]) {
        SubsequenceTransitive(a, b, c[1..]);
      } else if a[0] == b[0] && Subsequence(a[1..], b[1..]) {
        SubsequenceTransitive(a[1..], b[1..], c[1..]);
      } else {
        SubsequenceTransitive(a, b[1..], c[1..]);
      }
    }
  }

  lemma {:induction false} SubsequenceShorter<T>(a: seq<T>, b: seq<T>)
    requires Subsequence(a, b)
    ensures |a| <= |b|
    decreases |b|
  {
    if a != [] {
      if a[0] == b[0] && Subsequence(a[1..], b[1..]) {
        SubsequenceShorter(a[1..], b[1..]);
      } else {
        SubsequenceShorter(a, b[1..]);
      }
    }
  }

  /** `publicFiles.filter(item => item.fileName.toLowerCase().includes(term))`: exactly the
      matching items, each as often as it occurs, in their order. */
  function FilterByName(files: seq<FileData>, term: string): (r: seq<FileData>)
    ensures forall x :: multiset(r)[x] == if NameMatches(x, term) then multiset(files)[x] else 0
    ensures forall x :: x in r <==> x in files && NameMatches(x, term)
    ensures Subsequence(r, files)
  {
    if files == [] then []
    else
      var rest := FilterByName(files[1..], term);
      assert files == [files[0]] + files[1..];
      assert forall x :: x in files <==> x == files[0] || x in files[1..];
      if NameMatches(files[0], term) then [files[0]] + rest
      else
        assert rest == [] || Subsequence(rest, files[1..]);
        rest
  }

  /** A search never lengthens the list. */
  lemma FilterNeverGrows(files: seq<FileData>, term: string)
    ensures |FilterByName(files, term)| <= |files|
  {
    SubsequenceShorter(FilterByName(files, term), files);
  }

  /** Searches apply to the current list, so two searches in a row keep exactly the items
      matching both terms, each as often as it occurs, in the original order. */
  lemma SearchesNarrowCumulatively(files: seq<FileData>, t1: string, t2: string)
    ensures Subsequence(FilterByName(FilterByName(files, t1), t2), files)
    ensures forall x :: multiset(FilterByName(FilterByName(files, t1), t2))[x] ==
              if NameMatches(x, t1) && NameMatches(x, t2) then multiset(files)[x] else 0
  {
    SubsequenceTransitive(FilterByName(FilterByName(files, t1), t2), FilterByName(files, t1), files);
  }

  /** Typing more characters: when the new term contains the old one, narrowing the narrowed
      list gives the same as searching the original list for the new term. */
  lemma {:induction false} RefinedSearch(files: seq<FileData>, t1: string, t2: string)
    requires Includes(t2, t1)
    ensures FilterByName(FilterByName(files, t1), t2) == FilterByName(files, t2)
  {
    if files != [] {
      RefinedSearch(files[1..], t1, t2);
      var name := ToLowerCase(files[0].fileName);
      if Includes(name, t2) {
        IncludesTransitive(name, t2, t1);
      }
    }
  }

  /** Every file matches the empty term. */
  lemma {:induction false} EmptyTermKeepsAll(files: seq<FileData>)
    ensures FilterByName(files, "") == files
  {
    if files != [] {
      IncludesEmpty(ToLowerCase(files[0].fileName));
      EmptyTermKeepsAll(files[1..]);
    }
  }

  /** An empty or all-white-space input leaves the list as it is. */
  lemma BlankInputKeepsList(files: seq<FileData>, input: string)
    requires forall i :: 0 <= i < |input| ==> IsWhiteSpace(input[i])
    ensures FilterByName(files, SearchTerm(input)) == files
  {
    TrimEmptyIff(input);
    EmptyTermKeepsAll(files);
  }

  /** Clearing the search box after a search does not bring back the removed items: the list
      stays as the search left it. */
  lemma ClearingDoesNotRestore(files: seq<FileData>, input: string, cleared: string)
    requires forall i :: 0 <= i < |cleared| ==> IsWhiteSpace(cleared[i])
    ensures var narrowed := FilterByName(files, SearchTerm(input));
            FilterByName(narrowed, SearchTerm(cleared)) == narrowed
  {
    BlankInputKeepsList(FilterByName(files, SearchTerm(input)), cleared);
  }

  // ---------------------------------------------------------------- statistics

  /** `files.reduce((sum, file) => sum + f(file), 0)`, the last file added last: no file
      counts for more than the total, and the empty list sums to 0. */
  function SumOf(files: seq<FileData>, f: FileData -> nat): (r: nat)
    ensures files == [] ==> r == 0
    ensures forall i :: 0 <= i < |files| ==> f(files[i]) <= r
  {
    if files == [] then 0
    else
      var front := files[..|files| - 1];
      var r := SumOf(front, f) + f(files[|files| - 1]);
      assert forall i :: 0 <= i < |front| ==> files[i] == front[i];
      r
  }

  function Size(d: FileData): nat { d.fileSize }

  function Downloads(d: FileData): nat { d.accessCount }

  /** The "Network Stats" panel. */
  datatype NetworkStats = NetworkStats(totalFiles: nat, totalSize: nat, totalDownloads: nat)

  /** The panel is shown only for a non-empty list; it counts the files and adds up their
      sizes and their download counts. */
  function Stats(files: seq<FileData>): (r: Option<NetworkStats>)
    ensures r.None? <==> files == []
  {
    if files == [] then None
    else Some(NetworkStats(|files|, SumOf(files, Size), SumOf(files, Downloads)))
  }

  lemma {:induction false} SumOfAppend(a: seq<FileData>, b: seq<FileData>, f: FileData -> nat)
    ensures SumOf(a + b, f) == SumOf(a, f) + SumOf(b, f)
    decreases |b|
  {
    if b != [] {
      assert (a + b)[..|a + b| - 1] == a + b[..|b| - 1];
      SumOfAppend(a, b[..|b| - 1], f);
    } else {
      assert a + b == a;
    }
  }

  /** The sums do not depend on the order of the files. */
  lemma {:induction false} SumOfPermutation(a: seq<FileData>, b: seq<FileData>, f: FileData -> nat)
    requires multiset(a) == multiset(b)
    ensures SumOf(a, f) == SumOf(b, f)
    decreases |a|
  {
    if a != [] {
      var last := a[|a| - 1];
      var front := a[..|a| - 1];
      assert a == front + [last];
      assert last in multiset(b);
      var k :| 0 <= k < |b| && b[k] == last;
      assert b == b[..k] + [last] + b[k + 1..];
      var rest := b[..k] + b[k + 1..];
      assert multiset(rest) == multiset(b) - multiset{last} by {
        assert multiset(b) == multiset(b[..k]) + multiset{last} + multiset(b[k + 1..]);
        assert multiset(rest) == multiset(b[..k]) + multiset(b[k + 1..]);
      }
      assert multiset(front) == multiset(a) - multiset{last} by {
        assert multiset(a) == multiset(front) + multiset{last};
      }
      SumOfPermutation(front, rest, f);
      SumOfAppend(b[..k] + [last], b[k + 1..], f);
      SumOfAppend(b[..k], [last], f);
      SumOfAppend(b[..k], b[k + 1..], f);
      assert SumOf([last], f) == f(last) by {
        assert [last][..0] == [];
      }
    }
  }

  /** The statistics of the public listing are those of the public records fetched, whatever
      order the sort leaves them in. */
  lemma StatsOfPublicListing(files: seq<FileData>, accounts: seq<KeyedFileAccount>)
    requires multiset(files) == multiset(MapAccounts(KeepPublic(accounts)))
    ensures Stats(files) == Stats(MapAccounts(KeepPublic(accounts)))
  {
    var views := MapAccounts(KeepPublic(accounts));
    assert |files| == |multiset(files)| == |views|;
    SumOfPermutation(files, views, Size);
    SumOfPermutation(files, views, Downloads);
  }

  lemma SumOfCons(x: FileData, rest: seq<FileData>, f: FileData -> nat)
    ensures SumOf([x] + rest, f) == f(x) + SumOf(rest, f)
  {
    SumOfAppend([x], rest, f);
    assert [x][..0] == [];
  }

  /** Deleting files never increases a sum. */
  lemma {:induction false} SumOfSubsequence(a: seq<FileData>, b: seq<FileData>, f: FileData -> nat)
    requires Subsequence(a, b)
    ensures SumOf(a, f) <= SumOf(b, f)
    decreases |b|
  {
    if b != [] {
      SumOfCons(b[0], b[1..], f);
      assert b == [b[0]] + b[1..];
      if a != [] && a[0] == b[0] && Subsequence(a[1..], b[1..]) {
        SumOfSubsequence(a[1..], b[1..], f);
        SumOfCons(a[0], a[1..], f);
        assert a == [a[0]] + a[1..];
      } else if a != [] {
        SumOfSubsequence(a, b[1..], f);
      }
    }
  }

  /** A search never increases the total size or the total downloads shown. */
  lemma SearchNeverIncreasesTotals(files: seq<FileData>, term: string)
    ensures SumOf(FilterByName(files, term), Size) <= SumOf(files, Size)
    ensures SumOf(FilterByName(files, term), Downloads) <= SumOf(files, Downloads)
  {
    SumOfSubsequence(FilterByName(files, term), files, Size);
    SumOfSubsequence(FilterByName(files, term), files, Downloads);
  }

  // ---------------------------------------------------------------- owner label

  /** `file.owner.slice(0, 8) + "..." + file.owner.slice(-8)`. */
  function OwnerLabel(owner: string): (r: string)
    ensures |owner| >= 8 ==>
              |r| == 19 && r[..8] == owner[..8] && r[8..11] == "..." && r[11..] == owner[|owner| - 8..]
    ensures |owner| <= 8 ==> r == owner + "..." + owner
  {
    SlicePrefix(owner, 8);
    SliceSuffix(owner, 8);
    Slice(owner, 0, 8) + "..." + SliceFrom(owner, -8)
  }

  // ---------------------------------------------------------------- page state

  class BrowsePage {
    var mounted: bool
    var loading: bool
    var publicFiles: seq<FileData>

    constructor ()
      ensures !mounted && !loading && publicFiles == []
    {
      mounted, loading, publicFiles := false, false, [];
    }

    /** The mount effect. */
    method Mount()
      modifies this
      ensures mounted && loading == old(loading) && publicFiles == old(publicFiles)
    {
      mounted := true;
    }

    /** `loadPublicFiles`, run by the effect once mounted (the wallet object from
        `useWallet()` is always present): a failed load keeps the current list. */
    method LoadPublicFiles(wallet: Wallet, reply: Result<seq<KeyedFileAccount>, Error>)
      returns (sent: Option<Request>)
      modifies this
      ensures mounted == old(mounted)
      ensures !mounted ==> sent == None && loading == old(loading) && publicFiles == old(publicFiles)
      ensures mounted ==> sent == Some(ListFileAccounts([])) && !loading
      ensures mounted && reply.Err? ==> publicFiles == old(publicFiles)
      ensures mounted && reply.Ok? ==>
                multiset(publicFiles) == multiset(MapAccounts(KeepPublic(reply.value))) && NewestFirst(publicFiles)
    {
      sent := None;
      if mounted {
        loading := true;
        var r;
        sent, r := GetPublicFiles(Some(wallet), reply);
        if r.Ok? {
          publicFiles := r.value;
        }
        loading := false;
      }
    }

    /** `filterPublic`: the search is applied to the list currently shown. */
    method FilterPublic(input: string)
      modifies this
      ensures publicFiles == FilterByName(old(publicFiles), SearchTerm(input))
      ensures mounted == old(mounted) && loading == old(loading)
    {
      var searchTerm := SearchTerm(input);
      if |searchTerm| == 0 {
        publicFiles := publicFiles;
      }
      publicFiles := FilterByName(publicFiles, searchTerm);
    }

    /** `handleDownload(file)`: without a connected wallet only an alert is shown; otherwise
        the gateway link is opened whether or not recording the access succeeds, and after a
        recorded access the list is refreshed. A failed refresh lands in the same handler as a
        failed recording, which opens the link a second time. The links opened are returned
        in order as `tabs`. */
    method HandleDownload(wallet: Wallet, file: FileData, find: AddressSearch,
                          recordReply: Outcome<Error>, refreshReply: Result<seq<KeyedFileAccount>, Error>)
      returns (sent: seq<Request>, tabs: seq<string>, alert: Option<string>)
      modifies this
      ensures mounted == old(mounted) && loading == old(loading)
      ensures !(wallet.connected && wallet.publicKey.Some?) ==>
                sent == [] && tabs == [] && alert == Some(ConnectToDownload) && publicFiles == old(publicFiles)
      ensures wallet.connected && wallet.publicKey.Some? ==>
                && alert == None
                && tabs != [] && forall u :: u in tabs ==> u == IpfsUrl(file.ipfsHash)
      ensures wallet.connected && wallet.publicKey.Some? && (file.fileHash == "" || !FileSeedFits(file.fileHash)) ==>
                sent == [] && tabs == [IpfsUrl(file.ipfsHash)] && publicFiles == old(publicFiles)
      ensures wallet.connected && wallet.publicKey.Some? && file.fileHash != "" && FileSeedFits(file.fileHash) ==>
                var user := wallet.publicKey.value;
                var record := SendTransaction(RecordDownload(file.fileHash),
                                              Accounts(user, None, Some(find(FileSeedBytes(user, file.fileHash)))));
                && (recordReply.Fail? ==>
                      sent == [record] && tabs == [IpfsUrl(file.ipfsHash)] && publicFiles == old(publicFiles))
                && (recordReply.Pass? && refreshReply.Err? ==>
                      sent == [record, ListFileAccounts([])] && publicFiles == old(publicFiles)
                      && tabs == [IpfsUrl(file.ipfsHash), IpfsUrl(file.ipfsHash)])
                && (recordReply.Pass? && refreshReply.Ok? ==>
                      sent == [record, ListFileAccounts([])] && tabs == [IpfsUrl(file.ipfsHash)]
                      && multiset(publicFiles) == multiset(MapAccounts(KeepPublic(refreshReply.value)))
                      && NewestFirst(publicFiles))
    {
      if !wallet.connected || wallet.publicKey.None? {
        return [], [], Some(ConnectToDownload);
      }
      alert := None;
      var url := IpfsUrl(file.ipfsHash);
      var recordSent, recorded := DownloadFile(Some(wallet), file.fileHash, find, recordReply);
      sent := if recordSent.Some? then [recordSent.value] else [];
      if recorded.Fail? {
        tabs := [url];
        return;
      }
      tabs := [url];
      var refreshSent, refreshed := GetPublicFiles(Some(wallet), refreshReply);
      sent := sent + [refreshSent.value];
      match refreshed {
        case Ok(files) =>
          publicFiles := files;
        case Err(_) =>
          tabs := tabs + [url];
      }
    }
  }
}
