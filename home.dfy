/** The home page (`app/page.tsx`): once mounted it checks whether the connected wallet
    already has a storage account, and its button creates one. */
module Home {
  import opened Wrappers
  import opened JsStrings
  import opened Chain
  import opened AnchorClient

  // The alerts shown by `handleInit`.
  const ConnectFirst := "Please connect your wallet first"
  const KeyUnavailable := "Wallet publicKey not available"
  const InitSucceeded := "Storage initialized successfully!"
  const AlreadyExists := "Storage account already exists!"
  const InitFailedPrefix := "Failed to initialize storage: "

  /** The program's refusal to create an account that exists is recognised by its text. */
  const AlreadyInUse := "already in use"

  /** Whether the message contains "already in use": the bare phrase is recognised, and a
      message shorter than the phrase never is. */
  function IsAlreadyInUse(e: Error): (b: bool)
    ensures e.message == AlreadyInUse ==> b
    ensures |e.message| < |AlreadyInUse| ==> !b
  {
    assert OccursAt(e.message, AlreadyInUse, 0) <== e.message == AlreadyInUse;
    Includes(e.message, AlreadyInUse)
  }

  class HomePage {
    var mounted: bool
    var isInitializing: bool
    var storageInitialized: bool
    var storageExists: bool

    /** The page sets its two storage flags together, always to the same value. */
    predicate Valid()
      reads this
    {
      storageExists == storageInitialized
    }

    constructor ()
      ensures Valid()
      ensures !mounted && !isInitializing && !storageInitialized && !storageExists
    {
      mounted, isInitializing, storageInitialized, storageExists := false, false, false, false;
    }

    /** The mount effect. */
    method Mount()
      modifies this
      ensures mounted
      ensures isInitializing == old(isInitializing)
      ensures storageInitialized == old(storageInitialized) && storageExists == old(storageExists)
    {
      mounted := true;
    }

    /** `checkStorageAccount`: with a connected wallet both flags become whether the storage
        account could be fetched, otherwise both become false. Its `catch` cannot be reached,
        since `storageAccountExists` reports every failure as false. */
    method CheckStorageAccount(wallet: Wallet, find: AddressSearch, reply: Result<StorageAccount, Error>)
      returns (sent: Option<Request>)
      modifies this
      ensures Valid()
      ensures mounted == old(mounted) && isInitializing == old(isInitializing)
      ensures wallet.connected && wallet.publicKey.Some? ==>
                && sent == Some(FetchStorageAccount(find(StorageSeedBytes(wallet.publicKey.value))))
                && (storageExists <==> reply.Ok?)
      ensures !(wallet.connected && wallet.publicKey.Some?) ==> sent == None && !storageExists
    {
      if wallet.connected && wallet.publicKey.Some? {
        var found;
        sent, found := StorageAccountExists(Some(wallet), wallet.publicKey, find, reply);
        storageExists := found;
        storageInitialized := found;
      } else {
        sent := None;
        storageExists := false;
        storageInitialized := false;
      }
    }

    /** The effect on the wallet's connection, its key and `mounted`: the check runs only once
        the page is mounted. */
    method OnWalletChange(wallet: Wallet, find: AddressSearch, reply: Result<StorageAccount, Error>)
      returns (sent: Option<Request>)
      modifies this
      ensures old(Valid()) ==> Valid()
      ensures mounted == old(mounted) && isInitializing == old(isInitializing)
      ensures !mounted ==>
                sent == None && storageExists == old(storageExists) && storageInitialized == old(storageInitialized)
      ensures mounted && wallet.connected && wallet.publicKey.Some? ==>
                && sent == Some(FetchStorageAccount(find(StorageSeedBytes(wallet.publicKey.value))))
                && storageInitialized == storageExists
                && (storageExists <==> reply.Ok?)
      ensures mounted && !(wallet.connected && wallet.publicKey.Some?) ==>
                sent == None && !storageExists && !storageInitialized
    {
      sent := None;
      if mounted {
        sent := CheckStorageAccount(wallet, find, reply);
      }
    }

    /** `handleInit`: without a connected wallet and its key only an alert is shown. Otherwise
        the page is busy while the initialisation is sent (`busy` is its state at that
        moment), and afterwards it is not. Success, or a refusal because the account is already
        in use, sets both flags; any other failure leaves them as they were. Every path shows
        exactly one alert. */
    method HandleInit(wallet: Wallet, find: AddressSearch, reply: Outcome<Error>)
      returns (sent: Option<Request>, busy: bool, alert: string)
      modifies this
      ensures old(Valid()) ==> Valid()
      ensures mounted == old(mounted)
      ensures !wallet.connected ==> alert == ConnectFirst
      ensures wallet.connected && wallet.publicKey.None? ==> alert == KeyUnavailable
      ensures !(wallet.connected && wallet.publicKey.Some?) ==>
                && sent == None && !busy
                && isInitializing == old(isInitializing)
                && storageInitialized == old(storageInitialized) && storageExists == old(storageExists)
      ensures wallet.connected && wallet.publicKey.Some? ==>
                var user := wallet.publicKey.value;
                && sent == Some(SendTransaction(Initialize, Accounts(user, Some(find(StorageSeedBytes(user))), None)))
                && busy && !isInitializing
      ensures wallet.connected && wallet.publicKey.Some? && reply.Pass? ==>
                storageInitialized && storageExists && alert == InitSucceeded
      ensures wallet.connected && wallet.publicKey.Some? && reply.Fail? && IsAlreadyInUse(reply.error) ==>
                storageInitialized && storageExists && alert == AlreadyExists
      ensures wallet.connected && wallet.publicKey.Some? && reply.Fail? && !IsAlreadyInUse(reply.error) ==>
                && storageInitialized == old(storageInitialized) && storageExists == old(storageExists)
                && alert == InitFailedPrefix + reply.error.message
    {
      if !wallet.connected {
        return None, false, ConnectFirst;
      }
      if wallet.publicKey.None? {
        return None, false, KeyUnavailable;
      }
      isInitializing := true;
      var r;
      sent, r := InitializeStorage(Some(wallet), find, reply);
      busy := isInitializing;
      match r {
        case Ok(_) =>
          storageInitialized := true;
          storageExists := true;
          alert := InitSucceeded;
        case Err(e) =>
          if IsAlreadyInUse(e) {
            alert := AlreadyExists;
            storageExists := true;
            storageInitialized := true;
          } else {
            alert := InitFailedPrefix + e.message;
          }
      }
      isInitializing := false;
    }
  }
}
