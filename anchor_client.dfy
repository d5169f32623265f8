/** The chain client adapter of `lib/anchorClient.ts`: deterministic address seeds, the
    unique file identifier, the guard clauses of the wrappers around the on-chain program,
    and the mapping, filtering and sorting of the records they fetch.

    A remote call is not performed: each wrapper RETURNS the request it would send
    (`sent`, None when it stops before any call) and is GIVEN the reply as a parameter. */
module AnchorClient {
  import opened Wrappers
  import opened Encoding
  import opened JsStrings
  import opened Chain
  import Utils

  type u32 = x: int | 0 <= x < 0x1_0000_0000
  type u64 = x: int | 0 <= x < 0x1_0000_0000_0000_0000
  type i64 = x: int | -0x8000_0000_0000_0000 <= x < 0x8000_0000_0000_0000

  /** A thrown JavaScript `Error`; only its message is ever inspected. */
  datatype Error = Error(message: string)

  const WalletRequired := "Wallet is required"
  const UserKeyRequiredForPdas := "User public key is required for deriving PDAs"
  const WalletNotReady := "Wallet not connected or publicKey not available"
  const OwnerRequired := "Owner public key is required"
  const FileHashRequired := "File hash is required"
  const UploadFieldsRequired := "File hash, name, and IPFS hash are required"
  const UserKeyRequired := "User public key is required"
  /** Thrown by the address search for a seed over 32 bytes. */
  const MaxSeedLengthExceeded := "Max seed length exceeded"

  /** The wallet adapter as the wrappers read it; the wrappers receive it as `wallet: any`,
      so it may itself be missing (`Option<Wallet>`). */
  datatype Wallet = Wallet(connected: bool, publicKey: Option<PublicKey>)

  /** `wallet?.connected && wallet?.publicKey`: the test every mutating wrapper makes first. */
  function Ready(wallet: Option<Wallet>): (r: bool)
    ensures r <==> exists key :: wallet == Some(Wallet(true, Some(key)))
  {
    assert wallet.Some? && wallet.value.publicKey.Some? ==>
      wallet == Some(Wallet(wallet.value.connected, Some(wallet.value.publicKey.value)));
    wallet.Some? && wallet.value.connected && wallet.value.publicKey.Some?
  }

  /** The on-chain `StorageAccount` record. */
  datatype StorageAccount = StorageAccount(owner: PublicKey, totalFiles: u32, totalStorageUsed: u64, bump: byte)

  /** The on-chain `FileAccount` record. */
  datatype FileAccount = FileAccount(
    owner: PublicKey, fileHash: string, fileName: string, fileSize: u64, ipfsHash: string,
    encryptionKey: Option<string>, uploadTimestamp: i64, isPublic: bool, accessCount: u64, bump: byte)

  /** One element of `program.account.fileAccount.all(...)`: an address and its record. */
  datatype KeyedFileAccount = KeyedFileAccount(publicKey: PublicKey, account: FileAccount)

  /** The `FileData` view that the wrappers hand to the pages. */
  datatype FileData = FileData(
    publicKey: string, owner: string, fileHash: string, fileName: string, fileSize: u64,
    ipfsHash: string, encryptionKey: Option<string>, uploadTimestamp: i64, isPublic: bool,
    accessCount: u64, bump: byte)

  // ---------------------------------------------------------------- addresses

  const StorageTag := "storage"
  const FileTag := "file"
  /** Only this many leading characters of a file hash go into its address seed. */
  const FileHashSeedLength := 32

  /** The two tags are ASCII, so their UTF-8 forms are their character codes. */
  lemma TagBytes()
    ensures Utf8(StorageTag) == [0x73, 0x74, 0x6F, 0x72, 0x61, 0x67, 0x65]
    ensures Utf8(FileTag) == [0x66, 0x69, 0x6C, 0x65]
  {
    Utf8OfAscii(StorageTag);
    Utf8OfAscii(FileTag);
  }

  /** `fileHash.slice(0, 32)`. */
  function FileHashCut(fileHash: string): (r: string)
    ensures r == fileHash[..Min(FileHashSeedLength, |fileHash|)]
  {
    SlicePrefix(fileHash, FileHashSeedLength);
    Slice(fileHash, 0, FileHashSeedLength)
  }

  /** The seed that carries the file hash stays within the 32-byte seed limit. */
  predicate FileSeedFits(fileHash: string)
  {
    |Utf8(FileHashCut(fileHash))| <= MaxSeedLength
  }

  /** The bytes the storage address is searched from: the tag, then the owner's 32 bytes. */
  function StorageSeedBytes(user: PublicKey): seq<byte>
  {
    Utf8(StorageTag) + user.bytes
  }

  /** The bytes a file address is searched from: the tag, the owner's 32 bytes, then the
      UTF-8 form of the cut hash. */
  function FileSeedBytes(user: PublicKey, fileHash: string): seq<byte>
  {
    Utf8(FileTag) + user.bytes + Utf8(FileHashCut(fileHash))
  }

  /** `[Buffer.from("storage"), user.toBuffer()]`: two seeds that always fit. */
  function StorageSeeds(user: PublicKey): (r: seq<Seed>)
    ensures forall i :: 0 <= i < |r| ==> |r[i]| <= MaxSeedLength
    ensures Concat(r) == StorageSeedBytes(user)
  {
    TagBytes();
    var r := [Utf8(StorageTag), user.bytes];
    assert Concat(r[1..]) == user.bytes by {
      assert r[1..][1..] == [];
    }
    r
  }

  /** `[Buffer.from("file"), user.toBuffer(), Buffer.from(shortHash, "utf8")]`: only the last
      seed can be too long, exactly when the cut hash is over 32 bytes in UTF-8. */
  function FileSeeds(user: PublicKey, fileHash: string): (r: seq<Seed>)
    ensures (forall i :: 0 <= i < |r| ==> |r[i]| <= MaxSeedLength) <==> FileSeedFits(fileHash)
    ensures Concat(r) == FileSeedBytes(user, fileHash)
  {
    TagBytes();
    var r := [Utf8(FileTag), user.bytes, Utf8(FileHashCut(fileHash))];
    assert Concat(r[2..]) == r[2] by {
      assert r[2..][1..] == [];
    }
    assert Concat(r[1..]) == r[1] + r[2] by {
      assert r[1..][1..] == r[2..];
    }
    assert r[0] + r[1] + r[2] == r[0] + (r[1] + r[2]);
    r
  }

  /** The result of `derivePdas`; `filePda` is undefined when no file hash is given. */
  datatype Pdas = Pdas(storagePda: PublicKey, filePda: Option<PublicKey>)

  /** `derivePdas(user, fileHash)`; an absent `fileHash` is the empty string (both are falsy). */
  function DerivePdas(user: Option<PublicKey>, fileHash: string, find: AddressSearch): (r: Result<Pdas, Error>)
    ensures user.None? ==> r == Err(Error(UserKeyRequiredForPdas))
    ensures user.Some? && fileHash != "" && !FileSeedFits(fileHash) ==> r == Err(Error(MaxSeedLengthExceeded))
    ensures r.Ok? <==> user.Some? && (fileHash == "" || FileSeedFits(fileHash))
    ensures r.Ok? ==> r.value.storagePda == find(Utf8("storage") + user.value.bytes)
    ensures r.Ok? ==> (r.value.filePda.Some? <==> fileHash != "")
    ensures r.Ok? && fileHash != "" ==>
              r.value.filePda.value == find(Utf8("file") + user.value.bytes + Utf8(fileHash[..Min(32, |fileHash|)]))
  {
    match user
    case None => Err(Error(UserKeyRequiredForPdas))
    case Some(u) =>
      var storagePda := FindProgramAddress(StorageSeeds(u), find).value;
      if fileHash == "" then Ok(Pdas(storagePda, None))
      else
        match FindProgramAddress(FileSeeds(u, fileHash), find)
        case None => Err(Error(MaxSeedLengthExceeded))
        case Some(filePda) => Ok(Pdas(storagePda, Some(filePda)))
  }

  /** The storage address depends on the owner alone, whatever file hash is passed. */
  lemma StorageAddressIgnoresFileHash(user: PublicKey, fileHash: string, find: AddressSearch)
    requires DerivePdas(Some(user), fileHash, find).Ok?
    ensures DerivePdas(Some(user), fileHash, find).value.storagePda == DerivePdas(Some(user), "", find).value.storagePda
  {
  }

  /** Two hashes that agree on their first 32 characters get the same outcome: the same
      addresses, or the same failure. */
  lemma SharedPrefixSharesFileAddress(user: PublicKey, h1: string, h2: string, find: AddressSearch)
    requires |h1| >= 32 && |h2| >= 32 && h1[..32] == h2[..32]
    ensures DerivePdas(Some(user), h1, find) == DerivePdas(Some(user), h2, find)
  {
    assert FileHashCut(h1) == FileHashCut(h2);
  }

  /** A cut hash of ASCII characters always fits its seed. */
  lemma AsciiHashFits(fileHash: string)
    requires forall i :: 0 <= i < |FileHashCut(fileHash)| ==> FileHashCut(fileHash)[i] as int < 0x80
    ensures FileSeedFits(fileHash)
  {
    Utf8OfAscii(FileHashCut(fileHash));
  }

  /** One character beyond ASCII among the first 32 makes the seed too long, so `derivePdas`
      throws for such a hash. */
  lemma WideCharacterOverflowsSeed(fileHash: string, i: nat)
    requires |fileHash| >= 32 && i < 32 && fileHash[i] as int >= 0x80
    ensures !FileSeedFits(fileHash)
  {
    Utf8LongerPastAscii(FileHashCut(fileHash), i);
  }

  /** Different owners or different cut hashes give different file seed bytes: the key has
      a fixed width, so the concatenation can be split back. */
  lemma FileSeedBytesInjective(u1: PublicKey, h1: string, u2: PublicKey, h2: string)
    requires FileSeedBytes(u1, h1) == FileSeedBytes(u2, h2)
    ensures u1 == u2 && FileHashCut(h1) == FileHashCut(h2)
  {
    TagBytes();
    var b1, b2 := FileSeedBytes(u1, h1), FileSeedBytes(u2, h2);
    assert u1.bytes == b1[4..36] && u2.bytes == b2[4..36];
    assert Utf8(FileHashCut(h1)) == b1[36..] && Utf8(FileHashCut(h2)) == b2[36..];
    Utf8Injective(FileHashCut(h1), FileHashCut(h2));
  }

  /** Storage and file seed bytes never coincide: they start with `s` and `f`. */
  lemma StorageAndFileSeedBytesDiffer(u1: PublicKey, u2: PublicKey, fileHash: string)
    ensures StorageSeedBytes(u1) != FileSeedBytes(u2, fileHash)
  {
    TagBytes();
    assert StorageSeedBytes(u1)[0] == 0x73 && FileSeedBytes(u2, fileHash)[0] == 0x66;
  }

  /** When the search separates the two seed strings, different owners get different storage
      addresses. */
  lemma DistinctStorageAddresses(u1: PublicKey, u2: PublicKey, find: AddressSearch)
    requires Separates(find, StorageSeedBytes(u1), StorageSeedBytes(u2))
    requires u1 != u2
    ensures DerivePdas(Some(u1), "", find).value.storagePda != DerivePdas(Some(u2), "", find).value.storagePda
  {
    var b1, b2 := StorageSeedBytes(u1), StorageSeedBytes(u2);
    TagBytes();
    assert u1.bytes == b1[7..] && u2.bytes == b2[7..];
  }

  /** When the search separates the two seed strings, file addresses differ whenever the
      owners or the 32-character cuts of the hashes differ. */
  lemma DistinctFileAddresses(u1: PublicKey, h1: string, u2: PublicKey, h2: string, find: AddressSearch)
    requires h1 != "" && h2 != "" && FileSeedFits(h1) && FileSeedFits(h2)
    requires Separates(find, FileSeedBytes(u1, h1), FileSeedBytes(u2, h2))
    requires u1 != u2 || h1[..Min(32, |h1|)] != h2[..Min(32, |h2|)]
    ensures DerivePdas(Some(u1), h1, find).value.filePda != DerivePdas(Some(u2), h2, find).value.filePda
  {
    if FileSeedBytes(u1, h1) == FileSeedBytes(u2, h2) {
      FileSeedBytesInjective(u1, h1, u2, h2);
    }
  }

  /** When the search separates the two seed strings, no storage address is also a file
      address. */
  lemma StorageAndFileAddressesDiffer(u1: PublicKey, u2: PublicKey, fileHash: string, find: AddressSearch)
    requires fileHash != "" && FileSeedFits(fileHash)
    requires Separates(find, StorageSeedBytes(u1), FileSeedBytes(u2, fileHash))
    ensures DerivePdas(Some(u1), fileHash, find).value.storagePda
            != DerivePdas(Some(u2), fileHash, find).value.filePda.value
  {
    StorageAndFileSeedBytesDiffer(u1, u2, fileHash);
  }

  // ---------------------------------------------------------------- unique file hash

  /** `b.toString(16).padStart(2, "0")` is the two-digit hexadecimal form of a byte. */
  lemma PaddedRadix16IsHexByte(b: byte)
    ensures PadStart(ToStringRadix(b, 16), 2, '0') == Utils.HexByte(b)
  {
    if b >= 16 {
      assert ToStringRadix(b, 16) == ToStringRadix(b / 16, 16) + [DigitChar(b % 16)];
      assert ToStringRadix(b / 16, 16) == [DigitChar(b / 16)];
    }
  }

  /** `hashArray.map(b => b.toString(16).padStart(2, "0")).join("")` agrees with `toHex`. */
  function HexJoin(digest: seq<byte>): (r: string)
    ensures r == Utils.ToHex(digest)
  {
    if digest == [] then ""
    else
      PaddedRadix16IsHexByte(digest[0]);
      PadStart(ToStringRadix(digest[0], 16), 2, '0') + HexJoin(digest[1..])
  }

  /** `createUniqueFileHash`, with the SHA-256 digest and `Date.now()` given as parameters:
      the first 24 hexadecimal digits of the digest, then the last 8 decimal digits of the
      time (all of them when there are fewer). */
  function CreateUniqueFileHash(digest: seq<byte>, now: nat): (r: string)
    ensures var hex, stamp := Utils.ToHex(digest), DecimalString(now);
            r == hex[..Min(24, |hex|)] + (if |stamp| >= 8 then stamp[|stamp| - 8..] else stamp)
  {
    var hexHash := HexJoin(digest);
    var timestamp := DecimalString(now);
    SlicePrefix(hexHash, 24);
    SliceSuffix(timestamp, 8);
    Slice(hexHash, 0, 24) + SliceFrom(timestamp, -8)
  }

  /** For a 32-byte digest and a time of at least 8 digits the identifier has exactly 32
      characters: the digest's first 24 hexadecimal digits, then the time modulo 10^8 in
      decimal. */
  lemma UniqueFileHashShape(digest: seq<byte>, now: nat)
    requires |digest| == 32 && now >= 10_000_000
    ensures var r := CreateUniqueFileHash(digest, now);
            && |r| == 32
            && r[..24] == Utils.ToHex(digest)[..24]
            && DecimalValue(r[24..]) == now % 100_000_000
  {
    var stamp := DecimalString(now);
    assert Pow10(7) == 10_000_000 && Pow10(8) == 100_000_000;
    DecimalStringLength(now, 7);
    DecimalSuffixValue(now, 8);
    var hex := Utils.ToHex(digest);
    var r := CreateUniqueFileHash(digest, now);
    assert r == hex[..24] + stamp[|stamp| - 8..];
    assert |r| == 32;
    assert r[..24] == hex[..24];
    assert r[24..] == stamp[|stamp| - 8..];
    assert DecimalValue(r[24..]) == now % 100_000_000;
  }

  /** The identifier is made of digits only: lower-case hexadecimal ones, then decimal ones. */
  lemma UniqueFileHashAlphabet(digest: seq<byte>, now: nat)
    ensures forall i :: 0 <= i < |CreateUniqueFileHash(digest, now)| ==>
              IsDigit(CreateUniqueFileHash(digest, now)[i], 16)
    ensures forall i :: Min(24, 2 * |digest|) <= i < |CreateUniqueFileHash(digest, now)| ==>
              IsDigit(CreateUniqueFileHash(digest, now)[i], 10)
  {
    var hex, stamp := Utils.ToHex(digest), DecimalString(now);
    var tail := if |stamp| >= 8 then stamp[|stamp| - 8..] else stamp;
    assert forall i :: 0 <= i < |hex| ==> IsDigit(hex[i], 16) by {
      Utils.ToHexPairs(digest);
    }
    assert forall i :: 0 <= i < |tail| ==> IsDigit(tail[i], 10) by {
      forall i | 0 <= i < |tail|
        ensures IsDigit(tail[i], 10)
      {
        assert tail[i] == stamp[i + (|stamp| - |tail|)];
      }
    }
    DigitsOfJoin(hex, tail, CreateUniqueFileHash(digest, now), Min(24, |hex|));
  }

  /** A prefix of a hexadecimal text followed by a decimal one. */
  lemma DigitsOfJoin(hex: string, tail: string, r: string, cut: nat)
    requires cut <= |hex| && r == hex[..cut] + tail
    requires forall i :: 0 <= i < |hex| ==> IsDigit(hex[i], 16)
    requires forall i :: 0 <= i < |tail| ==> IsDigit(tail[i], 10)
    ensures forall i :: 0 <= i < |r| ==> IsDigit(r[i], 16)
    ensures forall i :: cut <= i < |r| ==> IsDigit(r[i], 10)
  {
    forall i | 0 <= i < |r|
      ensures IsDigit(r[i], 16) && (i >= cut ==> IsDigit(r[i], 10))
    {
      if i < cut {
        assert r[i] == hex[i];
      } else {
        assert r[i] == tail[i - cut];
      }
    }
  }

  /** A 32-character identifier passes the 32-character cut of the file seed unchanged and,
      being ASCII, fits the seed, so the address is derived from the whole identifier and
      `derivePdas` never throws for it. */
  lemma UniqueFileHashSurvivesTruncation(digest: seq<byte>, now: nat)
    requires |digest| == 32 && now >= 10_000_000
    ensures FileHashCut(CreateUniqueFileHash(digest, now)) == CreateUniqueFileHash(digest, now)
    ensures FileSeedFits(CreateUniqueFileHash(digest, now))
  {
    var r := CreateUniqueFileHash(digest, now);
    UniqueFileHashShape(digest, now);
    assert r[..32] == r;
    UniqueFileHashAlphabet(digest, now);
    forall i | 0 <= i < |r|
      ensures r[i] as int < 0x80
    {
      assert IsDigit(r[i], 16);
    }
    AsciiHashFits(r);
  }

  // ---------------------------------------------------------------- requests

  /** The program instructions, with their arguments. */
  datatype Instruction =
    | Initialize
    | Upload(fileHash: string, fileName: string, fileSize: nat, ipfsHash: string, encryptionKey: Option<string>)
    | Share(isPublic: bool)
    | Delete
    | RecordDownload(fileHash: string)

  /** The accounts passed with an instruction (the constant system program left implicit). */
  datatype Accounts = Accounts(user: PublicKey, storageAccount: Option<PublicKey>, fileAccount: Option<PublicKey>)

  /** A `memcmp` account filter. */
  datatype Memcmp = Memcmp(offset: nat, bytes: string)

  /** The owner field of a file record starts after the 8-byte account discriminator. */
  const OwnerOffset := 8

  /** A request to the chain. */
  datatype Request =
    | SendTransaction(instruction: Instruction, accounts: Accounts)
    | FetchStorageAccount(address: PublicKey)
    | FetchFileAccount(address: PublicKey)
    | ListFileAccounts(filters: seq<Memcmp>)

  function ToResult<T>(reply: Outcome<Error>, value: T): Result<T, Error>
  {
    match reply
    case Pass => Ok(value)
    case Fail(e) => Err(e)
  }

  // ---------------------------------------------------------------- mutating wrappers

  /** `initializeStorage(wallet)`. */
  method InitializeStorage(wallet: Option<Wallet>, find: AddressSearch, reply: Outcome<Error>)
    returns (sent: Option<Request>, r: Result<PublicKey, Error>)
    ensures !Ready(wallet) ==> sent == None && r == Err(Error(WalletNotReady))
    ensures Ready(wallet) ==>
              var user := wallet.value.publicKey.value;
              var storage := find(StorageSeedBytes(user));
              && sent == Some(SendTransaction(Initialize, Accounts(user, Some(storage), None)))
              && r == (if reply.Pass? then Ok(storage) else Err(reply.error))
  {
    if !Ready(wallet) {
      return None, Err(Error(WalletNotReady));
    }
    var user := wallet.value.publicKey.value;
    var pdas := DerivePdas(Some(user), "", find).value;
    sent := Some(SendTransaction(Initialize, Accounts(user, Some(pdas.storagePda), None)));
    r := ToResult(reply, pdas.storagePda);
  }

  /** `uploadFile(wallet, fileHash, fileName, fileSize, ipfsHash, encryptionKey)`. */
  method UploadFile(wallet: Option<Wallet>, fileHash: string, fileName: string, fileSize: nat,
                    ipfsHash: string, encryptionKey: Option<string>, find: AddressSearch,
                    reply: Outcome<Error>)
    returns (sent: Option<Request>, r: Result<PublicKey, Error>)
    ensures !Ready(wallet) ==> sent == None && r == Err(Error(WalletNotReady))
    ensures Ready(wallet) && (fileHash == "" || fileName == "" || ipfsHash == "") ==>
              sent == None && r == Err(Error(UploadFieldsRequired))
    ensures Ready(wallet) && fileHash != "" && fileName != "" && ipfsHash != "" && !FileSeedFits(fileHash) ==>
              sent == None && r == Err(Error(MaxSeedLengthExceeded))
    ensures Ready(wallet) && fileHash != "" && fileName != "" && ipfsHash != "" && FileSeedFits(fileHash) ==>
              var user := wallet.value.publicKey.value;
              var file := find(FileSeedBytes(user, fileHash));
              && sent == Some(SendTransaction(Upload(fileHash, fileName, fileSize, ipfsHash, encryptionKey),
                                              Accounts(user, Some(find(StorageSeedBytes(user))), Some(file))))
              && r == (if reply.Pass? then Ok(file) else Err(reply.error))
  {
    if !Ready(wallet) {
      return None, Err(Error(WalletNotReady));
    }
    if fileHash == "" || fileName == "" || ipfsHash == "" {
      return None, Err(Error(UploadFieldsRequired));
    }
    var user := wallet.value.publicKey.value;
    var derived := DerivePdas(Some(user), fileHash, find);
    if derived.Err? {
      return None, Err(derived.error);
    }
    // The source's "Failed to derive file PDA" throw cannot fire: the hash is not empty.
    var pdas := derived.value;
    var filePda := pdas.filePda.value;
    sent := Some(SendTransaction(Upload(fileHash, fileName, fileSize, ipfsHash, encryptionKey),
                                 Accounts(user, Some(pdas.storagePda), Some(filePda))));
    r := ToResult(reply, filePda);
  }

  /** `shareFile(wallet, fileHash, isPublic)`. */
  method ShareFile(wallet: Option<Wallet>, fileHash: string, isPublic: bool, find: AddressSearch,
                   reply: Outcome<Error>)
    returns (sent: Option<Request>, r: Outcome<Error>)
    ensures !Ready(wallet) ==> sent == None && r == Fail(Error(WalletNotReady))
    ensures Ready(wallet) && fileHash == "" ==> sent == None && r == Fail(Error(FileHashRequired))
    ensures Ready(wallet) && fileHash != "" && !FileSeedFits(fileHash) ==>
              sent == None && r == Fail(Error(MaxSeedLengthExceeded))
    ensures Ready(wallet) && fileHash != "" && FileSeedFits(fileHash) ==>
              var user := wallet.value.publicKey.value;
              && sent == Some(SendTransaction(Share(isPublic), Accounts(user, None, Some(find(FileSeedBytes(user, fileHash))))))
              && r == reply
  {
    if !Ready(wallet) {
      return None, Fail(Error(WalletNotReady));
    }
    if fileHash == "" {
      return None, Fail(Error(FileHashRequired));
    }
    var user := wallet.value.publicKey.value;
    var derived := DerivePdas(Some(user), fileHash, find);
    if derived.Err? {
      return None, Fail(derived.error);
    }
    var filePda := derived.value.filePda.value;
    sent := Some(SendTransaction(Share(isPublic), Accounts(user, None, Some(filePda))));
    r := reply;
  }

  /** `deleteFile(wallet, fileHash)`. */
  method DeleteFile(wallet: Option<Wallet>, fileHash: string, find: AddressSearch, reply: Outcome<Error>)
    returns (sent: Option<Request>, r: Outcome<Error>)
    ensures !Ready(wallet) ==> sent == None && r == Fail(Error(WalletNotReady))
    ensures Ready(wallet) && fileHash == "" ==> sent == None && r == Fail(Error(FileHashRequired))
    ensures Ready(wallet) && fileHash != "" && !FileSeedFits(fileHash) ==>
              sent == None && r == Fail(Error(MaxSeedLengthExceeded))
    ensures Ready(wallet) && fileHash != "" && FileSeedFits(fileHash) ==>
              var user := wallet.value.publicKey.value;
              && sent == Some(SendTransaction(Delete, Accounts(user, Some(find(StorageSeedBytes(user))),
                                                               Some(find(FileSeedBytes(user, fileHash))))))
              && r == reply
  {
    if !Ready(wallet) {
      return None, Fail(Error(WalletNotReady));
    }
    if fileHash == "" {
      return None, Fail(Error(FileHashRequired));
    }
    var user := wallet.value.publicKey.value;
    var derived := DerivePdas(Some(user), fileHash, find);
    if derived.Err? {
      return None, Fail(derived.error);
    }
    var pdas := derived.value;
    sent := Some(SendTransaction(Delete, Accounts(user, Some(pdas.storagePda), Some(pdas.filePda.value))));
    r := reply;
  }

  /** `downloadFile(wallet, fileHash)`: records one access to the file. */
  method DownloadFile(wallet: Option<Wallet>, fileHash: string, find: AddressSearch, reply: Outcome<Error>)
    returns (sent: Option<Request>, r: Outcome<Error>)
    ensures !Ready(wallet) ==> sent == None && r == Fail(Error(WalletNotReady))
    ensures Ready(wallet) && fileHash == "" ==> sent == None && r == Fail(Error(FileHashRequired))
    ensures Ready(wallet) && fileHash != "" && !FileSeedFits(fileHash) ==>
              sent == None && r == Fail(Error(MaxSeedLengthExceeded))
    ensures Ready(wallet) && fileHash != "" && FileSeedFits(fileHash) ==>
              var user := wallet.value.publicKey.value;
              && sent == Some(SendTransaction(RecordDownload(fileHash), Accounts(user, None, Some(find(FileSeedBytes(user, fileHash))))))
              && r == reply
  {
    if !Ready(wallet) {
      return None, Fail(Error(WalletNotReady));
    }
    if fileHash == "" {
      return None, Fail(Error(FileHashRequired));
    }
    var user := wallet.value.publicKey.value;
    var derived := DerivePdas(Some(user), fileHash, find);
    if derived.Err? {
      return None, Fail(derived.error);
    }
    var filePda := derived.value.filePda.value;
    sent := Some(SendTransaction(RecordDownload(fileHash), Accounts(user, None, Some(filePda))));
    r := reply;
  }

  // ---------------------------------------------------------------- single-record reads

  /** `getStorageInfo(wallet, owner)`. */
  method GetStorageInfo(wallet: Option<Wallet>, owner: Option<PublicKey>, find: AddressSearch,
                        reply: Result<StorageAccount, Error>)
    returns (sent: Option<Request>, r: Result<StorageAccount, Error>)
    ensures wallet.None? ==> sent == None && r == Err(Error(WalletRequired))
    ensures wallet.Some? && owner.None? ==> sent == None && r == Err(Error(OwnerRequired))
    ensures wallet.Some? && owner.Some? ==>
              sent == Some(FetchStorageAccount(find(StorageSeedBytes(owner.value)))) && r == reply
  {
    if wallet.None? {
      return None, Err(Error(WalletRequired));
    }
    if owner.None? {
      return None, Err(Error(OwnerRequired));
    }
    var storagePda := DerivePdas(owner, "", find).value.storagePda;
    sent := Some(FetchStorageAccount(storagePda));
    r := reply;
  }

  /** `storageAccountExists(wallet, owner)`: every failure of the read, whatever its cause,
      becomes `false`; nothing is thrown. */
  method StorageAccountExists(wallet: Option<Wallet>, owner: Option<PublicKey>, find: AddressSearch,
                              reply: Result<StorageAccount, Error>)
    returns (sent: Option<Request>, found: bool)
    ensures found <==> wallet.Some? && owner.Some? && reply.Ok?
    ensures sent.Some? <==> wallet.Some? && owner.Some?
    ensures sent.Some? ==> sent.value == FetchStorageAccount(find(StorageSeedBytes(owner.value)))
  {
    var r;
    sent, r := GetStorageInfo(wallet, owner, find, reply);
    found := r.Ok?;
  }

  /** `getFile(wallet, owner, fileHash)`. */
  method GetFile(wallet: Option<Wallet>, owner: Option<PublicKey>, fileHash: string, find: AddressSearch,
                 reply: Result<FileAccount, Error>)
    returns (sent: Option<Request>, r: Result<FileAccount, Error>)
    ensures wallet.None? ==> sent == None && r == Err(Error(WalletRequired))
    ensures wallet.Some? && owner.None? ==> sent == None && r == Err(Error(OwnerRequired))
    ensures wallet.Some? && owner.Some? && fileHash == "" ==> sent == None && r == Err(Error(FileHashRequired))
    ensures wallet.Some? && owner.Some? && fileHash != "" && !FileSeedFits(fileHash) ==>
              sent == None && r == Err(Error(MaxSeedLengthExceeded))
    ensures wallet.Some? && owner.Some? && fileHash != "" && FileSeedFits(fileHash) ==>
              sent == Some(FetchFileAccount(find(FileSeedBytes(owner.value, fileHash)))) && r == reply
  {
    if wallet.None? {
      return None, Err(Error(WalletRequired));
    }
    if owner.None? {
      return None, Err(Error(OwnerRequired));
    }
    if fileHash == "" {
      return None, Err(Error(FileHashRequired));
    }
    var derived := DerivePdas(owner, fileHash, find);
    if derived.Err? {
      return None, Err(derived.error);
    }
    var filePda := derived.value.filePda.value;
    sent := Some(FetchFileAccount(filePda));
    r := reply;
  }

  // ---------------------------------------------------------------- record mapping

  /** The `FileData` view of the record at `address`. */
  function ToFileData(address: PublicKey, a: FileAccount): (d: FileData)
    ensures FromFileData(d) == Some(KeyedFileAccount(address, a))
  {
    KeyTextRoundTrip(address);
    KeyTextRoundTrip(a.owner);
    FileData(ToBase58(address), ToBase58(a.owner), a.fileHash, a.fileName, a.fileSize, a.ipfsHash,
             a.encryptionKey, a.uploadTimestamp, a.isPublic, a.accessCount, a.bump)
  }

  /** The record a view was made from: the reference showing that the view loses nothing. */
  function FromFileData(d: FileData): Option<KeyedFileAccount>
  {
    match (FromBase58(d.publicKey), FromBase58(d.owner))
    case (Some(address), Some(owner)) =>
      Some(KeyedFileAccount(address, FileAccount(owner, d.fileHash, d.fileName, d.fileSize, d.ipfsHash,
                                                 d.encryptionKey, d.uploadTimestamp, d.isPublic, d.accessCount, d.bump)))
    case _ => None
  }

  /** Distinct records have distinct views. */
  lemma ToFileDataInjective(x: KeyedFileAccount, y: KeyedFileAccount)
    requires ToFileData(x.publicKey, x.account) == ToFileData(y.publicKey, y.account)
    ensures x == y
  {
    assert FromFileData(ToFileData(x.publicKey, x.account)) == Some(x);
  }

  /** `accounts.map(account => ({ ... }))`. */
  function MapAccounts(s: seq<KeyedFileAccount>): (r: seq<FileData>)
    ensures |r| == |s| && forall i :: 0 <= i < |s| ==> r[i] == ToFileData(s[i].publicKey, s[i].account)
  {
    seq(|s|, i requires 0 <= i < |s| => ToFileData(s[i].publicKey, s[i].account))
  }

  /** `accounts.filter(account => account.account.isPublic)`: each public record is kept as
      often as it occurs, and no other record is kept. */
  function KeepPublic(s: seq<KeyedFileAccount>): (r: seq<KeyedFileAccount>)
    ensures forall x :: multiset(r)[x] == if x.account.isPublic then multiset(s)[x] else 0
  {
    if s == [] then []
    else
      var rest := KeepPublic(s[1..]);
      assert s == [s[0]] + s[1..];
      (if s[0].account.isPublic then [s[0]] else []) + rest
  }

  /** Most recent first: upload times never increase along the list. */
  predicate NewestFirst(s: seq<FileData>)
  {
    forall i, j :: 0 <= i < j < |s| ==> s[i].uploadTimestamp >= s[j].uploadTimestamp
  }

  /** Sorted on 0..hi (inclusive) leaving out position `j`, the element being inserted. */
  ghost predicate SortedExcept(s: seq<FileData>, hi: nat, j: nat)
    requires hi < |s|
  {
    forall p, q :: 0 <= p < q <= hi && p != j && q != j ==> s[p].uploadTimestamp >= s[q].uploadTimestamp
  }

  /** The element at `j` is strictly newer than everything after it up to `hi`. */
  ghost predicate NewerThanRest(s: seq<FileData>, j: nat, hi: nat)
    requires j <= hi < |s|
  {
    forall q :: j < q <= hi ==> s[j].uploadTimestamp > s[q].uploadTimestamp
  }

  lemma InsertStart(s: seq<FileData>, i: nat)
    requires i < |s| && NewestFirst(s[..i])
    ensures SortedExcept(s, i, i) && NewerThanRest(s, i, i)
  {
    assert forall p, q :: 0 <= p < q < i ==> s[..i][p] == s[p] && s[..i][q] == s[q];
  }

  lemma InsertStep(s: seq<FileData>, j: nat, i: nat)
    requires 0 < j <= i < |s|
    requires SortedExcept(s, i, j) && NewerThanRest(s, j, i)
    requires s[j - 1].uploadTimestamp < s[j].uploadTimestamp
    ensures var t := s[j - 1 := s[j]][j := s[j - 1]];
            SortedExcept(t, i, j - 1) && NewerThanRest(t, j - 1, i) && multiset(t) == multiset(s)
  {
  }

  lemma InsertDone(s: seq<FileData>, j: nat, i: nat)
    requires j <= i < |s|
    requires SortedExcept(s, i, j) && NewerThanRest(s, j, i)
    requires j == 0 || s[j - 1].uploadTimestamp >= s[j].uploadTimestamp
    ensures NewestFirst(s[..i + 1])
  {
    forall p, q | 0 <= p < q <= i
      ensures s[p].uploadTimestamp >= s[q].uploadTimestamp
    {
      if q == j && p != j - 1 {
        assert s[p].uploadTimestamp >= s[j - 1].uploadTimestamp;
      }
    }
  }

  /** One insertion step: `a[i]` moves left past every strictly older element, so the
      prefix up to `i` becomes sorted. */
  method InsertNewest(a: array<FileData>, i: nat)
    requires i < a.Length && NewestFirst(a[..i])
    modifies a
    ensures NewestFirst(a[..i + 1])
    ensures multiset(a[..]) == multiset(old(a[..]))
  {
    InsertStart(a[..], i);
    var j := i;
    while j > 0 && a[j - 1].uploadTimestamp < a[j].uploadTimestamp
      invariant 0 <= j <= i
      invariant multiset(a[..]) == multiset(old(a[..]))
      invariant SortedExcept(a[..], i, j) && NewerThanRest(a[..], j, i)
    {
      ghost var before := a[..];
      InsertStep(before, j, i);
      a[j - 1], a[j] := a[j], a[j - 1];
      assert a[..] == before[j - 1 := before[j]][j := before[j - 1]];
      j := j - 1;
    }
    InsertDone(a[..], j, i);
  }

  /** `files.sort((a, b) => b.uploadTimestamp - a.uploadTimestamp)`, in place. */
  method SortNewestFirst(a: array<FileData>)
    modifies a
    ensures NewestFirst(a[..])
    ensures multiset(a[..]) == multiset(old(a[..]))
  {
    var i := 0;
    while i < a.Length
      invariant 0 <= i <= a.Length
      invariant NewestFirst(a[..i])
      invariant multiset(a[..]) == multiset(old(a[..]))
    {
      InsertNewest(a, i);
      i := i + 1;
    }
    assert a[..a.Length] == a[..];
  }

  /** The views of the fetched records, sorted as the wrappers return them. */
  method SortedViews(accounts: seq<KeyedFileAccount>) returns (files: seq<FileData>)
    ensures multiset(files) == multiset(MapAccounts(accounts))
    ensures NewestFirst(files)
  {
    var views := MapAccounts(accounts);
    var a := new FileData[|views|](i requires 0 <= i < |views| => views[i]);
    assert a[..] == views;
    SortNewestFirst(a);
    files := a[..];
  }

  // ---------------------------------------------------------------- list reads

  /** `getUserFiles(wallet, owner)`: the records whose owner field matches, newest first. */
  method GetUserFiles(wallet: Option<Wallet>, owner: Option<PublicKey>, reply: Result<seq<KeyedFileAccount>, Error>)
    returns (sent: Option<Request>, r: Result<seq<FileData>, Error>)
    ensures wallet.None? ==> sent == None && r == Err(Error(WalletRequired))
    ensures wallet.Some? && owner.None? && wallet.value.publicKey.None? ==>
              sent == None && r == Err(Error(UserKeyRequired))
    ensures wallet.Some? && (owner.Some? || wallet.value.publicKey.Some?) ==>
              var key := if owner.Some? then owner.value else wallet.value.publicKey.value;
              && sent == Some(ListFileAccounts([Memcmp(OwnerOffset, ToBase58(key))]))
              && (reply.Err? ==> r == Err(reply.error))
              && (reply.Ok? ==> r.Ok? && multiset(r.value) == multiset(MapAccounts(reply.value)) && NewestFirst(r.value))
  {
    if wallet.None? {
      return None, Err(Error(WalletRequired));
    }
    var userKey := if owner.Some? then owner else wallet.value.publicKey;
    if userKey.None? {
      return None, Err(Error(UserKeyRequired));
    }
    sent := Some(ListFileAccounts([Memcmp(OwnerOffset, ToBase58(userKey.value))]));
    match reply {
      case Err(e) =>
        r := Err(e);
      case Ok(accounts) =>
        var files := SortedViews(accounts);
        r := Ok(files);
    }
  }

  /** `getPublicFiles(wallet)`: every fetched record that is public, newest first. */
  method GetPublicFiles(wallet: Option<Wallet>, reply: Result<seq<KeyedFileAccount>, Error>)
    returns (sent: Option<Request>, r: Result<seq<FileData>, Error>)
    ensures wallet.None? ==> sent == None && r == Err(Error(WalletRequired))
    ensures wallet.Some? ==>
              && sent == Some(ListFileAccounts([]))
              && (reply.Err? ==> r == Err(reply.error))
              && (reply.Ok? ==> r.Ok? && multiset(r.value) == multiset(MapAccounts(KeepPublic(reply.value)))
                                      && NewestFirst(r.value))
  {
    if wallet.None? {
      return None, Err(Error(WalletRequired));
    }
    sent := Some(ListFileAccounts([]));
    match reply {
      case Err(e) =>
        r := Err(e);
      case Ok(accounts) =>
        var files := SortedViews(KeepPublic(accounts));
        r := Ok(files);
    }
  }

  /** When the chain honours the owner filter, every file `getUserFiles` returns belongs to
      the requested owner. */
  lemma UserFilesBelongToOwner(files: seq<FileData>, accounts: seq<KeyedFileAccount>, key: PublicKey)
    requires multiset(files) == multiset(MapAccounts(accounts))
    requires forall k :: k in accounts ==> k.account.owner == key
    ensures forall d :: d in files ==> d.owner == ToBase58(key)
  {
    forall d | d in files
      ensures d.owner == ToBase58(key)
    {
      assert d in multiset(MapAccounts(accounts));
      var i :| 0 <= i < |accounts| && MapAccounts(accounts)[i] == d;
      assert accounts[i] in accounts;
    }
  }

  /** Every file of the public listing is public and is the view of a public record fetched. */
  lemma PublicFilesArePublicRecords(files: seq<FileData>, accounts: seq<KeyedFileAccount>)
    requires multiset(files) == multiset(MapAccounts(KeepPublic(accounts)))
    ensures forall d :: d in files ==> d.isPublic
    ensures forall d :: d in files ==>
              exists k :: k in accounts && k.account.isPublic && ToFileData(k.publicKey, k.account) == d
  {
    var kept := KeepPublic(accounts);
    forall d | d in files
      ensures d.isPublic
      ensures exists k :: k in accounts && k.account.isPublic && ToFileData(k.publicKey, k.account) == d
    {
      assert d in multiset(MapAccounts(kept));
      var i :| 0 <= i < |kept| && MapAccounts(kept)[i] == d;
      var k := kept[i];
      assert multiset(kept)[k] > 0;
      assert k in accounts && k.account.isPublic;
    }
  }

  /** The view of every public record fetched is in the public listing. */
  lemma PublicRecordsAreListed(files: seq<FileData>, accounts: seq<KeyedFileAccount>)
    requires multiset(files) == multiset(MapAccounts(KeepPublic(accounts)))
    ensures forall k :: k in accounts && k.account.isPublic ==> ToFileData(k.publicKey, k.account) in files
  {
    var kept := KeepPublic(accounts);
    forall k | k in accounts && k.account.isPublic
      ensures ToFileData(k.publicKey, k.account) in files
    {
      assert multiset(kept)[k] > 0;
      var i :| 0 <= i < |kept| && kept[i] == k;
      assert MapAccounts(kept)[i] == ToFileData(k.publicKey, k.account);
      assert ToFileData(k.publicKey, k.account) in multiset(files);
    }
  }

  /** The public listing has exactly as many files as there are public records fetched. */
  lemma PublicFilesCount(files: seq<FileData>, accounts: seq<KeyedFileAccount>)
    requires multiset(files) == multiset(MapAccounts(KeepPublic(accounts)))
    ensures |files| == |KeepPublic(accounts)| <= |accounts|
  {
    assert |multiset(files)| == |files|;
    KeepPublicShrinks(accounts);
  }

  lemma {:induction false} KeepPublicShrinks(s: seq<KeyedFileAccount>)
    ensures |KeepPublic(s)| <= |s|
  {
    if s != [] {
      KeepPublicShrinks(s[1..]);
    }
  }

  /** `getFileByHash(wallet, owner, fileHash)`: any failure, including a missing wallet,
      owner or hash, yields null; otherwise the view of the record, keyed by the derived
      file address. */
  method GetFileByHash(wallet: Option<Wallet>, owner: Option<PublicKey>, fileHash: string,
                       find: AddressSearch, reply: Result<FileAccount, Error>)
    returns (sent: Option<Request>, r: Option<FileData>)
    ensures sent.Some? <==> wallet.Some? && owner.Some? && fileHash != "" && FileSeedFits(fileHash)
    ensures sent.Some? ==> sent.value == FetchFileAccount(find(FileSeedBytes(owner.value, fileHash)))
    ensures r.Some? <==> sent.Some? && reply.Ok?
    ensures r.Some? ==> r.value == ToFileData(find(FileSeedBytes(owner.value, fileHash)), reply.value)
  {
    if wallet.None? {
      return None, None;
    }
    var pdas := DerivePdas(owner, fileHash, find);
    if pdas.Err? || pdas.value.filePda.None? {
      return None, None;
    }
    var filePda := pdas.value.filePda.value;
    sent := Some(FetchFileAccount(filePda));
    match reply {
      case Err(_) =>
        r := None;
      case Ok(account) =>
        r := Some(ToFileData(filePda, account));
    }
  }
}
