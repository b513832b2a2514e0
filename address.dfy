/**
 * The address helpers of src/address.ts: the x-only key taproot needs, the four
 * bitcoin addresses of one public key, and the 20-byte hex addresses of the
 * target chain, cut from a keccak256 digest.
 *
 * The bitcoinjs-lib payment builders and keccak256 are not part of this model:
 * they are passed in as functions.
 */
module Address {
  import opened Wrappers
  import opened Bytes
  import Rlp

  /** The bitcoinjs-lib network parameters a derivation runs under. */
  datatype Network = Bitcoin | Testnet

  /** The bitcoinjs-lib payment builders the derivation calls. */
  datatype Payment = P2trPayment | P2pkhPayment | P2shP2wpkhPayment | P2wpkhPayment

  /** A payment builder applied to a key and a network: the address, or None where the builder throws. */
  type Payments = (Payment, seq<byte>, Network) -> Option<string>

  /** The four address types an instruction can declare. */
  datatype AddressType = P2pkh | P2sh | P2wpkh | P2tr

  datatype AddressSet = AddressSet(p2tr: string, p2pkh: string, p2sh: string, p2wpkh: string)

  /** Indexing the derived record by a declared address type. */
  function Pick(addresses: AddressSet, t: AddressType): string
  {
    match t
    case P2pkh => addresses.p2pkh
    case P2sh => addresses.p2sh
    case P2wpkh => addresses.p2wpkh
    case P2tr => addresses.p2tr
  }

  /** What keccak256 of web3-utils prints: '0x' and 64 lower-case hex digits. */
  predicate IsDigest(s: string) {
    |s| == 66 && s[0] == '0' && s[1] == 'x' && IsLowerHex(s[2..])
  }

  type Digest = s: string | IsDigest(s) witness "0x" + Repeat('0', 64)

  /** keccak256 over text and over bytes, both left abstract. */
  type TextHash = string -> Digest
  type BytesHash = seq<byte> -> Digest

  function Min(a: int, b: int): int {
    if a <= b then a else b
  }

  /**
   * toXOnly: a 32-byte key is already x-only; any other buffer is cut to bytes
   * 1..32 (subarray clamps both ends to the buffer).
   */
  function ToXOnly(pubKey: seq<byte>): (r: seq<byte>)
    ensures |pubKey| == 32 ==> r == pubKey
    ensures |pubKey| != 32 ==> r == pubKey[Min(1, |pubKey|)..Min(33, |pubKey|)]
    ensures |pubKey| == 33 || |pubKey| == 65 ==> |r| == 32 && r == pubKey[1..33]
    ensures |r| <= 32
  {
    if |pubKey| == 32 then pubKey else pubKey[Min(1, |pubKey|)..Min(33, |pubKey|)]
  }

  /** The networkType parameter, which defaults to 'mainnet' when it is not passed. */
  function NetworkTypeOrDefault(networkType: Option<string>): (r: string)
    ensures networkType.None? ==> r == "mainnet"
    ensures networkType.Some? ==> r == networkType.value
  {
    match networkType
    case None => "mainnet"
    case Some(t) => t
  }

  /** 'mainnet' selects the bitcoin network; every other value selects testnet. */
  function NetworkOf(networkType: string): (r: Network)
    ensures r == Bitcoin <==> networkType == "mainnet"
    ensures r == Testnet <==> networkType != "mainnet"
  {
    if networkType == "mainnet" then Bitcoin else Testnet
  }

  /**
   * publicKeyToAddress: the hex text becomes a buffer, taproot gets its x-only
   * key, the other three the full key, all under one network (p2sh takes the
   * network of the p2wpkh redeem script it wraps). If any builder throws, the
   * whole derivation throws.
   */
  function PublicKeyToAddress(pay: Payments, publicKeyHex: string, networkType: Option<string>): (r: Option<AddressSet>)
    ensures
      var key := BufferFromHex(publicKeyHex);
      var net := NetworkOf(NetworkTypeOrDefault(networkType));
      && (r.Some? <==>
            pay(P2trPayment, ToXOnly(key), net).Some? && pay(P2pkhPayment, key, net).Some?
            && pay(P2shP2wpkhPayment, key, net).Some? && pay(P2wpkhPayment, key, net).Some?)
      && (r.Some? ==>
            && Some(r.value.p2tr) == pay(P2trPayment, ToXOnly(key), net)
            && Some(r.value.p2pkh) == pay(P2pkhPayment, key, net)
            && Some(r.value.p2sh) == pay(P2shP2wpkhPayment, key, net)
            && Some(r.value.p2wpkh) == pay(P2wpkhPayment, key, net))
  {
    var key := BufferFromHex(publicKeyHex);
    var network := NetworkOf(NetworkTypeOrDefault(networkType));
    var tapInternalKey := ToXOnly(key);
    match (pay(P2trPayment, tapInternalKey, network), pay(P2pkhPayment, key, network),
           pay(P2shP2wpkhPayment, key, network), pay(P2wpkhPayment, key, network))
    case (Some(p2tr), Some(p2pkh), Some(p2sh), Some(p2wpkh)) => Some(AddressSet(p2tr, p2pkh, p2sh, p2wpkh))
    case _ => None
  }

  /**
   * generateHexAddress: '0x' followed by the digest of the address from its 26th
   * character on, that is its last 40 hex digits.
   */
  function GenerateHexAddress(hash: TextHash, address: string): (r: string)
    ensures |r| == 42 && r[..2] == "0x"
    ensures IsLowerHex(r[2..])
    ensures var d := hash(address); r[2..] == d[|d| - 40..]
  {
    "0x" + hash(address)[26..]
  }

  /** When the digest prints 32 bytes, the hex address prints the last 20 of them. */
  lemma HexAddressIsLastTwentyBytes(hash: TextHash, address: string, digest: seq<byte>)
    requires |digest| == 32 && hash(address) == "0x" + HexOf(digest)
    ensures GenerateHexAddress(hash, address) == "0x" + HexOf(digest[12..])
  {
    HexOfSuffix(digest, 12);
    assert ("0x" + HexOf(digest))[26..] == HexOf(digest)[24..];
  }

  /**
   * The rlp input of generateContractAddress: [walletAddress, nonce]; None where
   * the package throws, for a negative nonce, a '0x' walletAddress with a non-hex
   * digit, or a list too long for eight length bytes.
   */
  function ContractAddressInput(walletAddress: string, nonce: int): (r: Option<seq<byte>>)
    ensures nonce < 0 ==> r.None?
    ensures Rlp.MalformedHex(walletAddress) ==> r.None?
    ensures r.None? <==>
      || nonce < 0 || Rlp.MalformedHex(walletAddress)
      || (var items := Rlp.ValuesBytes([Rlp.Text(walletAddress), Rlp.Number(nonce)]);
          items.Some? && !(Rlp.ItemsFit(items.value) && |Rlp.EncodeAll(items.value)| < Rlp.LengthLimit))
  {
    var vs := [Rlp.Text(walletAddress), Rlp.Number(nonce)];
    Rlp.NumberBytesAreBigEndian(nonce);
    assert Rlp.ValueBytes(vs[0]).None? <==> Rlp.MalformedHex(walletAddress);
    assert Rlp.ValueBytes(vs[1]).None? <==> nonce < 0;
    Rlp.Encode(vs)
  }

  /**
   * generateContractAddress: the same 42-character shape, cut from the digest of
   * the encoded [walletAddress, nonce]; None where the encoding throws.
   */
  function GenerateContractAddress(hash: BytesHash, walletAddress: string, nonce: int): (r: Option<string>)
    ensures nonce < 0 ==> r.None?
    ensures r.Some? <==> ContractAddressInput(walletAddress, nonce).Some?
    ensures r.Some? ==> |r.value| == 42 && r.value[..2] == "0x" && IsLowerHex(r.value[2..])
    ensures r.Some? ==> var d := hash(ContractAddressInput(walletAddress, nonce).value); r.value[2..] == d[|d| - 40..]
  {
    match ContractAddressInput(walletAddress, nonce)
    case None => None
    case Some(input) => Some("0x" + hash(input)[26..])
  }

  /** What the contract-address digest is taken over: two items, the wallet's bytes and the nonce's big-endian bytes. */
  lemma ContractAddressCommitsToWalletAndNonce(walletAddress: string, nonce: int)
    requires ContractAddressInput(walletAddress, nonce).Some?
    ensures nonce >= 0
    ensures Rlp.DecodeList(ContractAddressInput(walletAddress, nonce).value)
         == Some([Rlp.ValueBytes(Rlp.Text(walletAddress)).value, BigEndian(nonce)])
  {
    var vs := [Rlp.Text(walletAddress), Rlp.Number(nonce)];
    Rlp.NumberBytesAreBigEndian(nonce);
    Rlp.DecodeEncode(vs);
    var items := Rlp.ValuesBytes(vs).value;
    assert Rlp.ValueBytes(vs[1]) == Some(items[1]);
    assert items == [items[0], items[1]];
  }
}
