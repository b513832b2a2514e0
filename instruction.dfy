/**
 * One inscription's way through validation (src/updater/index.ts): the canonical
 * serialisation of an instruction (serializeInstruction) and the chain of checks
 * that accepts or drops a parsed inscription (filter).
 *
 * JSON.parse, keccak256, the bitcoinjs-lib payment builders and verifyMessage
 * are not part of this model: the parsed content is an input, the others are
 * passed in as functions.
 */
module Instruction {
  import opened Wrappers
  import opened Bytes
  import opened Address
  import Rlp

  datatype Action = Execute | Deploy

  datatype SigType = Ecdsa | Bip322

  function ActionTag(a: Action): string {
    match a
    case Execute => "execute"
    case Deploy => "deploy"
  }

  function AddressTypeTag(t: AddressType): string {
    match t
    case P2pkh => "p2pkh"
    case P2sh => "p2sh"
    case P2wpkh => "p2wpkh"
    case P2tr => "p2tr"
  }

  function SigTypeTag(t: SigType): string {
    match t
    case Ecdsa => "ecdsa"
    case Bip322 => "bip-322"
  }

  function ParseAction(s: string): (r: Option<Action>)
    ensures r.Some? <==> s == "execute" || s == "deploy"
    ensures r.Some? ==> ActionTag(r.value) == s
  {
    if s == "execute" then Some(Execute) else if s == "deploy" then Some(Deploy) else None
  }

  function ParseAddressType(s: string): (r: Option<AddressType>)
    ensures r.Some? <==> s == "p2pkh" || s == "p2sh" || s == "p2wpkh" || s == "p2tr"
    ensures r.Some? ==> AddressTypeTag(r.value) == s
  {
    if s == "p2pkh" then Some(P2pkh)
    else if s == "p2sh" then Some(P2sh)
    else if s == "p2wpkh" then Some(P2wpkh)
    else if s == "p2tr" then Some(P2tr)
    else None
  }

  function ParseSigType(s: string): (r: Option<SigType>)
    ensures r.Some? <==> s == "ecdsa" || s == "bip-322"
    ensures r.Some? ==> SigTypeTag(r.value) == s
  {
    if s == "ecdsa" then Some(Ecdsa) else if s == "bip-322" then Some(Bip322) else None
  }

  /**
   * A JSON value at a place where the source tests its type (an instruction's
   * nonce, a contract payload's bytecode): text, an integral number, or anything
   * else (null, a boolean, an object, an array).
   */
  datatype JsonValue = JString(s: string) | JNumber(n: int) | JOther

  /** The properties filter reads from parsed content; None where a property is absent. */
  datatype Record = Record(
    p: Option<string>,
    publicKey: Option<string>,
    txHash: Option<string>,
    addressType: Option<string>,
    action: Option<string>,
    contract: Option<string>,
    bytecodeLocation: Option<string>,
    nonce: Option<JsonValue>,
    data: Option<string>,
    sigType: Option<string>,
    sig: Option<string>)

  /**
   * What JSON.parse makes of an inscription's content: a failure, null, or a
   * value read through its properties (text, numbers, booleans and arrays have
   * none of the properties above).
   */
  datatype Parsed = Unparseable | NullValue | Value(record: Record)

  /** verifyMessage(message, signature, address, type). */
  type Verifier = (string, string, string, SigType) -> bool

  /** The foreign functions validation calls. */
  datatype Crypto = Crypto(keccakBytes: BytesHash, keccakText: TextHash, pay: Payments, verify: Verifier)

  /** The argument of serializeInstruction: an execute or a deploy instruction without txHash and sig. */
  datatype SerialInstruction = SerialInstruction(
    p: string,
    publicKey: string,
    addressType: AddressType,
    action: Action,
    contract: Option<string>,
    bytecodeLocation: Option<string>,
    nonce: int,
    data: string,
    sigType: SigType)

  function OptionalText(s: Option<string>): Rlp.Value {
    match s
    case None => Rlp.Undefined
    case Some(t) => Rlp.Text(t)
  }

  /** The reference the array carries: bytecodeLocation for a deploy, contract otherwise. */
  function Reference(i: SerialInstruction): Option<string> {
    if i.action == Deploy then i.bytecodeLocation else i.contract
  }

  /** The array serializeInstruction builds and hands to RLP.encode. */
  function InstructionArray(i: SerialInstruction): (r: seq<Rlp.Value>)
    ensures |r| == 8
    ensures forall k :: 0 <= k < 8 && k != 4 && k != 5 ==> r[k].Text?
    ensures r[3] == Rlp.Text(ActionTag(i.action)) && r[5] == Rlp.Number(i.nonce)
    ensures r[4].Undefined? <==> Reference(i).None?
  {
    [ Rlp.Text(i.p),
      Rlp.Text(i.publicKey),
      Rlp.Text(AddressTypeTag(i.addressType)),
      Rlp.Text(ActionTag(i.action)),
      OptionalText(Reference(i)),
      Rlp.Number(i.nonce),
      Rlp.Text(i.data),
      Rlp.Text(SigTypeTag(i.sigType)) ]
  }

  /**
   * serializeInstruction; None exactly where the rlp package throws: a negative
   * nonce, '0x' text with a non-hex digit in p, publicKey, the reference or data,
   * or a list too long for eight length bytes.
   */
  function SerializeInstruction(i: SerialInstruction): (r: Option<seq<byte>>)
    ensures i.nonce < 0 ==> r.None?
    ensures Rlp.MalformedHex(i.p) || Rlp.MalformedHex(i.publicKey) || Rlp.MalformedHex(i.data) ==> r.None?
    ensures Reference(i).Some? && Rlp.MalformedHex(Reference(i).value) ==> r.None?
    ensures r.None? <==>
      || ItemThrows(i)
      || (var items := Rlp.ValuesBytes(InstructionArray(i));
          items.Some? && !(Rlp.ItemsFit(items.value) && |Rlp.EncodeAll(items.value)| < Rlp.LengthLimit))
    ensures r.Some? ==> |r.value| >= 1 && r.value[0] >= 0xc0
  {
    ItemThrowsExactly(i);
    Rlp.Encode(InstructionArray(i))
  }

  /** The fields on which the package's toBytes throws: a negative nonce, or '0x' text with a non-hex digit. */
  predicate ItemThrows(i: SerialInstruction) {
    || i.nonce < 0
    || Rlp.MalformedHex(i.p) || Rlp.MalformedHex(i.publicKey) || Rlp.MalformedHex(i.data)
    || (Reference(i).Some? && Rlp.MalformedHex(Reference(i).value))
  }

  lemma ItemThrowsExactly(i: SerialInstruction)
    ensures Rlp.ValuesBytes(InstructionArray(i)).None? <==> ItemThrows(i)
  {
    var vs := InstructionArray(i);
    if ItemThrows(i) {
      var k := if i.nonce < 0 then 5 else if Rlp.MalformedHex(i.p) then 0
        else if Rlp.MalformedHex(i.publicKey) then 1 else if Rlp.MalformedHex(i.data) then 6 else 4;
      assert Rlp.ValueBytes(vs[k]).None?;
    } else {
      forall k | 0 <= k < |vs|
        ensures Rlp.ValueBytes(vs[k]).Some?
      {
        ItemConverts(i, k);
      }
    }
  }

  /** Item k converts when no field throws; the three tags are never '0x' text. */
  lemma ItemConverts(i: SerialInstruction, k: nat)
    requires !ItemThrows(i) && k < 8
    ensures Rlp.ValueBytes(InstructionArray(i)[k]).Some?
  {
    var v := InstructionArray(i)[k];
    if k == 2 {
      assert v == Rlp.Text(AddressTypeTag(i.addressType)) && !Rlp.IsHexPrefixed(AddressTypeTag(i.addressType));
    } else if k == 3 {
      assert v == Rlp.Text(ActionTag(i.action)) && !Rlp.IsHexPrefixed(ActionTag(i.action));
    } else if k == 7 {
      assert v == Rlp.Text(SigTypeTag(i.sigType)) && !Rlp.IsHexPrefixed(SigTypeTag(i.sigType));
    }
  }

  function TextBytes(s: string): Option<seq<byte>> {
    Rlp.ValueBytes(Rlp.Text(s))
  }

  /**
   * The serialisation is a list of exactly eight byte strings, in the order
   * p, publicKey, addressType, action, reference, nonce, data, sigType, where the
   * reference is bytecodeLocation for a deploy and contract otherwise (an absent
   * one encodes as no bytes) and the nonce is its minimal big-endian bytes.
   */
  lemma SerializedItems(i: SerialInstruction)
    requires SerializeInstruction(i).Some?
    ensures var items := Rlp.DecodeList(SerializeInstruction(i).value);
      var reference := Reference(i);
      && items.Some? && |items.value| == 8
      && Some(items.value[0]) == TextBytes(i.p)
      && Some(items.value[1]) == TextBytes(i.publicKey)
      && Some(items.value[2]) == TextBytes(AddressTypeTag(i.addressType))
      && Some(items.value[3]) == TextBytes(ActionTag(i.action))
      && (reference.None? ==> items.value[4] == [])
      && (reference.Some? ==> Some(items.value[4]) == TextBytes(reference.value))
      && i.nonce >= 0 && items.value[5] == BigEndian(i.nonce)
      && Some(items.value[6]) == TextBytes(i.data)
      && Some(items.value[7]) == TextBytes(SigTypeTag(i.sigType))
  {
    var vs := InstructionArray(i);
    Rlp.DecodeEncode(vs);
    var items := Rlp.ValuesBytes(vs).value;
    assert Rlp.ValueBytes(vs[5]) == Some(items[5]);
    Rlp.NumberBytesAreBigEndian(i.nonce);
  }

  /** An execute and a deploy instruction never serialise alike: their action items differ. */
  lemma ActionChangesSerialisation(i: SerialInstruction, j: SerialInstruction)
    requires i.action != j.action
    requires SerializeInstruction(i).Some?
    ensures SerializeInstruction(i) != SerializeInstruction(j)
  {
    SerializedItems(i);
    if SerializeInstruction(j).Some? {
      SerializedItems(j);
      var e, d := ActionTag(Execute), ActionTag(Deploy);
      assert TextBytes(e) == Some(Utf8(e)) && TextBytes(d) == Some(Utf8(d));
      assert Utf8(e)[0] != Utf8(d)[0];
    }
  }

  /**
   * Hex text and plain text can stand for the same bytes: a data field written
   * as the hex of some text's UTF-8 bytes serialises exactly like that text, so
   * the hash cannot tell the two instructions apart.
   */
  lemma HexAndTextDataCollide(i: SerialInstruction, t: string)
    requires !Rlp.IsHexPrefixed(t)
    requires i.data == "0x" + HexOf(Utf8(t))
    ensures SerializeInstruction(i) == SerializeInstruction(i.(data := t))
  {
    var j := i.(data := t);
    var h := HexOf(Utf8(t));
    assert ("0x" + h)[2..] == h;
    HexToBytesOfHex(Utf8(t));
    assert TextBytes(i.data) == TextBytes(t);
    var vs, ws := InstructionArray(i), InstructionArray(j);
    forall k | 0 <= k < |vs|
      ensures Rlp.ValueBytes(vs[k]) == Rlp.ValueBytes(ws[k])
    {
      if k != 6 {
        assert vs[k] == ws[k];
      }
    }
    SameBytesSameEncoding(vs, ws);
  }

  lemma {:induction false} SameBytesSameEncoding(vs: seq<Rlp.Value>, ws: seq<Rlp.Value>)
    requires |vs| == |ws|
    requires forall k :: 0 <= k < |vs| ==> Rlp.ValueBytes(vs[k]) == Rlp.ValueBytes(ws[k])
    ensures Rlp.ValuesBytes(vs) == Rlp.ValuesBytes(ws)
    ensures Rlp.Encode(vs) == Rlp.Encode(ws)
  {
    if vs != [] {
      SameBytesSameEncoding(vs[1..], ws[1..]);
    }
  }

  predicate Truthy(f: Option<string>) {
    f.Some? && f.value != ""
  }

  /** `process.env.NETWORK || 'mainnet'`: an unset or empty setting means mainnet. */
  function NetworkSetting(env: Option<string>): (r: string)
    ensures r != ""
    ensures env.None? || env == Some("") ==> r == "mainnet"
    ensures env.Some? && env.value != "" ==> r == env.value
  {
    if Truthy(env) then env.value else "mainnet"
  }

  /** The content checks of filter: required properties present and non-empty, the three enumerations. */
  predicate ContentChecks(rec: Record): (b: bool)
    ensures b <==>
      && Truthy(rec.publicKey) && Truthy(rec.txHash) && Truthy(rec.data) && rec.nonce.Some? && Truthy(rec.sig)
      && rec.action in {Some("execute"), Some("deploy")}
      && rec.addressType in {Some("p2pkh"), Some("p2sh"), Some("p2wpkh"), Some("p2tr")}
      && rec.sigType in {Some("ecdsa"), Some("bip-322")}
  {
    && Truthy(rec.publicKey)
    && Truthy(rec.txHash)
    && Truthy(rec.data)
    && rec.nonce.Some?
    && Truthy(rec.sig)
    && rec.action.Some? && ParseAction(rec.action.value).Some?
    && Truthy(rec.addressType) && ParseAddressType(rec.addressType.value).Some?
    && Truthy(rec.sigType) && ParseSigType(rec.sigType.value).Some?
  }

  /** A record with everything serializeInstruction needs. */
  predicate Shaped(rec: Record) {
    ContentChecks(rec) && rec.p.Some? && rec.nonce.value.JNumber?
  }

  /** The execute or deploy instruction filter builds from the record: only the matching reference is copied. */
  function SerialOf(rec: Record): (i: SerialInstruction)
    requires Shaped(rec)
    ensures i.action == Execute ==> i.contract == rec.contract && i.bytecodeLocation.None?
    ensures i.action == Deploy ==> i.bytecodeLocation == rec.bytecodeLocation && i.contract.None?
    ensures Some(ActionTag(i.action)) == rec.action && Some(i.data) == rec.data && rec.nonce == Some(JNumber(i.nonce))
    ensures Some(i.p) == rec.p && Some(i.publicKey) == rec.publicKey
    ensures Some(AddressTypeTag(i.addressType)) == rec.addressType && Some(SigTypeTag(i.sigType)) == rec.sigType
  {
    var action := ParseAction(rec.action.value).value;
    SerialInstruction(
      rec.p.value,
      rec.publicKey.value,
      ParseAddressType(rec.addressType.value).value,
      action,
      if action == Execute then rec.contract else None,
      if action == Deploy then rec.bytecodeLocation else None,
      rec.nonce.value.n,
      rec.data.value,
      ParseSigType(rec.sigType.value).value)
  }

  /** Why filter drops a record. The source drops silently; its comments name the stages. */
  datatype Rejection =
    | Malformed
    | WrongProtocol
    | InvalidContent
    | MissingContract
    | MissingBytecodeLocation
    | NonNumericNonce
    | HashMismatch
    | BadSignature

  /** filter's result: the record, a silent rejection, or an exception (a rejected promise). */
  datatype FilterOutcome = Accepted(instruction: Record) | Rejected(reason: Rejection) | Threw

  /**
   * The record is what an accepted instruction must look like, as one list of
   * conditions: the protocol tag, the non-empty properties, the enumerations, the
   * reference the action needs, and a numeric nonce.
   */
  predicate Admissible(rec: Record) {
    && rec.p == Some("veda")
    && rec.publicKey.Some? && rec.publicKey.value != ""
    && rec.txHash.Some? && rec.txHash.value != ""
    && rec.data.Some? && rec.data.value != ""
    && rec.sig.Some? && rec.sig.value != ""
    && rec.nonce.Some? && rec.nonce.value.JNumber?
    && rec.action in {Some("execute"), Some("deploy")}
    && rec.addressType in {Some("p2pkh"), Some("p2sh"), Some("p2wpkh"), Some("p2tr")}
    && rec.sigType in {Some("ecdsa"), Some("bip-322")}
    && (rec.action == Some("execute") ==> rec.contract.Some?)
    && (rec.action == Some("deploy") ==> rec.bytecodeLocation.Some?)
  }

  /** The action's reference is present: a contract for an execute, a bytecodeLocation for a deploy. */
  predicate HasReference(rec: Record) {
    && (rec.action == Some("execute") ==> rec.contract.Some?)
    && (rec.action == Some("deploy") ==> rec.bytecodeLocation.Some?)
  }

  /** keccak256 of the serialisation equals the claimed txHash. */
  predicate HashMatches(c: Crypto, rec: Record) {
    && Shaped(rec)
    && SerializeInstruction(SerialOf(rec)).Some?
    && rec.txHash == Some(c.keccakBytes(SerializeInstruction(SerialOf(rec)).value))
  }

  /** The address of the declared type, derived from the public key. */
  function SignerAddress(c: Crypto, env: Option<string>, rec: Record): (r: Option<string>)
    requires Shaped(rec)
    ensures var key := BufferFromHex(rec.publicKey.value);
      var net := NetworkOf(NetworkSetting(env));
      && (r.Some? <==> PublicKeyToAddress(c.pay, rec.publicKey.value, Some(NetworkSetting(env))).Some?)
      && (r.Some? && rec.addressType == Some("p2tr") ==> r == c.pay(P2trPayment, ToXOnly(key), net))
      && (r.Some? && rec.addressType == Some("p2pkh") ==> r == c.pay(P2pkhPayment, key, net))
      && (r.Some? && rec.addressType == Some("p2sh") ==> r == c.pay(P2shP2wpkhPayment, key, net))
      && (r.Some? && rec.addressType == Some("p2wpkh") ==> r == c.pay(P2wpkhPayment, key, net))
  {
    match PublicKeyToAddress(c.pay, rec.publicKey.value, Some(NetworkSetting(env)))
    case None => None
    case Some(addresses) => Some(Pick(addresses, ParseAddressType(rec.addressType.value).value))
  }

  /** verifyMessage accepts sig over txHash for that address under the declared scheme. */
  predicate Authentic(c: Crypto, env: Option<string>, rec: Record) {
    && Shaped(rec)
    && SignerAddress(c, env, rec).Some?
    && c.verify(rec.txHash.value, rec.sig.value, SignerAddress(c, env, rec).value, ParseSigType(rec.sigType.value).value)
  }

  /**
   * The last two stages of filter: keccak256 of the serialisation against the
   * claimed hash, then the signature against the address of the declared type.
   * A failing serialisation or address derivation throws.
   */
  function CheckSigned(c: Crypto, env: Option<string>, rec: Record): (r: FilterOutcome)
    requires Shaped(rec)
    ensures r.Accepted? <==> HashMatches(c, rec) && Authentic(c, env, rec)
    ensures r.Accepted? ==> r.instruction == rec
    ensures r.Rejected? ==> r.reason == HashMismatch || r.reason == BadSignature
    ensures r == Rejected(HashMismatch) <==> SerializeInstruction(SerialOf(rec)).Some? && !HashMatches(c, rec)
    ensures r == Rejected(BadSignature) <==>
      HashMatches(c, rec) && SignerAddress(c, env, rec).Some? && !Authentic(c, env, rec)
    ensures r == Threw <==>
      SerializeInstruction(SerialOf(rec)).None? || (HashMatches(c, rec) && SignerAddress(c, env, rec).None?)
  {
    match SerializeInstruction(SerialOf(rec))
    case None => Threw
    case Some(bytes) =>
      if c.keccakBytes(bytes) != rec.txHash.value then Rejected(HashMismatch)
      else match PublicKeyToAddress(c.pay, rec.publicKey.value, Some(NetworkSetting(env)))
        case None => Threw
        case Some(addresses) =>
          var address := Pick(addresses, ParseAddressType(rec.addressType.value).value);
          if !c.verify(rec.txHash.value, rec.sig.value, address, ParseSigType(rec.sigType.value).value)
          then Rejected(BadSignature)
          else Accepted(rec)
  }

  /**
   * filter: parse, protocol, content checks, references, nonce type, hash, then
   * signature, each failing check ending the chain. `env` is the NETWORK setting.
   */
  function Filter(c: Crypto, env: Option<string>, content: Parsed): (r: FilterOutcome)
    ensures content.Unparseable? ==> r == Rejected(Malformed)
    ensures content.NullValue? ==> r == Threw
    ensures content.Value? && content.record.p != Some("veda") ==> r == Rejected(WrongProtocol)
    ensures content.Value? && content.record.p == Some("veda") && !ContentChecks(content.record)
      ==> r == Rejected(InvalidContent)
    ensures r.Accepted? ==> content.Value? && r.instruction == content.record
    ensures r.Accepted? <==>
      content.Value? && Admissible(content.record)
      && HashMatches(c, content.record) && Authentic(c, env, content.record)
    ensures content.Value? && content.record.p == Some("veda") && ContentChecks(content.record) ==>
      var rec := content.record;
      && (rec.action == Some("execute") && rec.contract.None? ==> r == Rejected(MissingContract))
      && (rec.action == Some("deploy") && rec.bytecodeLocation.None? ==> r == Rejected(MissingBytecodeLocation))
      && (HasReference(rec) && !rec.nonce.value.JNumber? ==> r == Rejected(NonNumericNonce))
    ensures r == Rejected(HashMismatch) <==>
      content.Value? && Admissible(content.record) && Shaped(content.record)
      && SerializeInstruction(SerialOf(content.record)).Some? && !HashMatches(c, content.record)
    ensures r == Rejected(BadSignature) <==>
      content.Value? && Admissible(content.record) && HashMatches(c, content.record)
      && SignerAddress(c, env, content.record).Some? && !Authentic(c, env, content.record)
    ensures r == Threw <==>
      || content.NullValue?
      || (content.Value? && Admissible(content.record) && Shaped(content.record)
          && (|| SerializeInstruction(SerialOf(content.record)).None?
              || (HashMatches(c, content.record) && SignerAddress(c, env, content.record).None?)))
  {
    match content
    case Unparseable => Rejected(Malformed)
    case NullValue => Threw
    case Value(rec) =>
      if !Truthy(rec.p) || rec.p.value != "veda" then Rejected(WrongProtocol)
      else if !ContentChecks(rec) then Rejected(InvalidContent)
      else if rec.action == Some("execute") && rec.contract.None? then Rejected(MissingContract)
      else if rec.action == Some("deploy") && rec.bytecodeLocation.None? then Rejected(MissingBytecodeLocation)
      else if !rec.nonce.value.JNumber? then Rejected(NonNumericNonce)
      else CheckSigned(c, env, rec)
  }

  /** The claimed hash and the signature are not part of what is hashed. */
  lemma SerialisationExcludesHashAndSig(rec: Record, txHash: Option<string>, sig: Option<string>)
    requires Shaped(rec) && Truthy(txHash) && Truthy(sig)
    ensures Shaped(rec.(txHash := txHash, sig := sig))
    ensures SerialOf(rec.(txHash := txHash, sig := sig)) == SerialOf(rec)
  {
  }

  /**
   * Because of the collision above, an accepted instruction whose data is the hex
   * of a text is still accepted, with the same hash and signature, when its data
   * is replaced by that text.
   */
  lemma AcceptanceSurvivesDataRewrite(c: Crypto, env: Option<string>, rec: Record, t: string)
    requires Filter(c, env, Value(rec)).Accepted?
    requires t != "" && !Rlp.IsHexPrefixed(t)
    requires rec.data == Some("0x" + HexOf(Utf8(t)))
    ensures Filter(c, env, Value(rec.(data := Some(t)))) == Accepted(rec.(data := Some(t)))
  {
    var rec' := rec.(data := Some(t));
    assert Admissible(rec') && Shaped(rec');
    assert SerialOf(rec') == SerialOf(rec).(data := t);
    HexAndTextDataCollide(SerialOf(rec), t);
    assert SignerAddress(c, env, rec') == SignerAddress(c, env, rec);
    AcceptedLikeAccepted(c, env, rec, rec');
  }

  /**
   * A record that passes the content checks and has the same hashed bytes,
   * txHash, sig, signer and signature scheme as an accepted one is accepted too.
   */
  lemma AcceptedLikeAccepted(c: Crypto, env: Option<string>, rec: Record, rec': Record)
    requires Filter(c, env, Value(rec)).Accepted?
    requires Admissible(rec') && Shaped(rec')
    requires SerializeInstruction(SerialOf(rec')) == SerializeInstruction(SerialOf(rec))
    requires rec'.txHash == rec.txHash && rec'.sig == rec.sig && rec'.sigType == rec.sigType
    requires SignerAddress(c, env, rec') == SignerAddress(c, env, rec)
    ensures Filter(c, env, Value(rec')) == Accepted(rec')
  {
    assert HashMatches(c, rec');
    assert Authentic(c, env, rec');
  }

  /**
   * filter does not demand that only one reference be present: an accepted
   * execute instruction stays accepted, with the same hash, when a
   * bytecodeLocation is added, because the unused reference is not hashed.
   */
  lemma ExtraReferenceIgnored(c: Crypto, env: Option<string>, rec: Record, location: string)
    requires Filter(c, env, Value(rec)).Accepted? && rec.action == Some("execute")
    ensures Filter(c, env, Value(rec.(bytecodeLocation := Some(location)))) == Accepted(rec.(bytecodeLocation := Some(location)))
  {
    var rec' := rec.(bytecodeLocation := Some(location));
    assert Admissible(rec') && Shaped(rec');
    assert SerialOf(rec') == SerialOf(rec);
    assert SignerAddress(c, env, rec') == SignerAddress(c, env, rec);
    AcceptedLikeAccepted(c, env, rec, rec');
  }
}
