/** The few notions of the Solana client library that the front end uses: keys as 32 bytes
    with their Base58 text, and program-derived addresses found from a list of byte seeds. */
module Chain {
  import opened Wrappers
  import opened Encoding

  /** The width of a key, and so of `key.toBuffer()`. */
  const KeyLength := 32

  type Bytes32 = s: seq<byte> | |s| == KeyLength witness seq(32, _ => 0)

  /** An account address: 32 bytes. */
  datatype PublicKey = PublicKey(bytes: Bytes32)

  /** `key.toBase58()`, which is also what `key.toString()` returns: text that reads back as
      the key. */
  function ToBase58(key: PublicKey): (r: string)
    ensures FromBase58(r) == Some(key)
  {
    Base58RoundTrip(key.bytes);
    Base58Encode(key.bytes)
  }

  /** Reading a key back from its text: the text must decode to exactly 32 bytes. */
  function FromBase58(text: string): Option<PublicKey>
  {
    match Base58Decode(text)
    case Some(b) => if |b| == KeyLength then Some(PublicKey(b)) else None
    case None => None
  }

  /** The text of a key reads back as that key, so different keys have different texts. */
  lemma KeyTextRoundTrip(key: PublicKey)
    ensures FromBase58(ToBase58(key)) == Some(key)
  {
    Base58RoundTrip(key.bytes);
  }

  /** One seed of a program-derived address: a byte string. */
  type Seed = seq<byte>

  /** No seed may be longer than this. */
  const MaxSeedLength := 32

  /** The address search behind `PublicKey.findProgramAddressSync(seeds, PROGRAM_ID)`, given
      the concatenated seeds: the library hashes that concatenation, together with a bump
      byte and the fixed program id, so the address depends on nothing else. */
  type AddressSearch = seq<byte> -> PublicKey

  function Concat(seeds: seq<Seed>): (r: seq<byte>)
  {
    if seeds == [] then [] else seeds[0] + Concat(seeds[1..])
  }

  /** `PublicKey.findProgramAddressSync(seeds, PROGRAM_ID)[0]`: it throws when a seed is
      longer than 32 bytes (None), and otherwise searches on the concatenated seeds. */
  function FindProgramAddress(seeds: seq<Seed>, find: AddressSearch): (r: Option<PublicKey>)
    ensures r.None? <==> exists i :: 0 <= i < |seeds| && |seeds[i]| > MaxSeedLength
    ensures r.Some? ==> r.value == find(Concat(seeds))
  {
    if forall i :: 0 <= i < |seeds| ==> |seeds[i]| <= MaxSeedLength then Some(find(Concat(seeds)))
    else None
  }

  /** The search gives two different byte strings different addresses. An address is 32
      bytes, so no search does this for all byte strings; the lemmas that need it ask it of
      the two strings they compare. */
  ghost predicate Separates(find: AddressSearch, a: seq<byte>, b: seq<byte>)
  {
    a != b ==> find(a) != find(b)
  }
}
