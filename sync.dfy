/**
 * The per-height body of sync in src/updater/index.ts. It reads the
 * inscriptions of one bitcoin height, turns the accepted instructions into
 * transactions, submits a block with a strictly increasing timestamp to the
 * execution layer, and waits for the next bitcoin block when it has caught up.
 *
 * The ord server, bitcoind and the execution layer are not part of this model.
 * The answers of getBlock and getBlockInfoByHeight, the success of rpcCall, and
 * the polls while waiting are inputs; None stands for a call that threw. A
 * deploy's contract inscription is fetched through a function of the
 * environment.
 */
module Sync {
  import opened Wrappers
  import opened Bytes
  import opened Address
  import opened Instruction
  import Rlp

  /** One entry of the ord server's listing: its inscription number and its parsed content. */
  datatype Inscription = Inscription(inscriptionNumber: int, content: Parsed)

  /** getBlock's answer: the chain's block count and the height's inscriptions, in listing order. */
  datatype InscriptionBlock = InscriptionBlock(blockCount: int, inscriptions: seq<Inscription>)

  /** The fields of bitcoind's block information that sync reads. */
  datatype BlockInfo = BlockInfo(hash: string, height: int, time: int, nonce: nat)

  datatype Transaction = Transaction(sender: string, to: string, nonce: int, data: string, txHash: string)

  datatype BvmBlock = BvmBlock(blockHash: string, blockNumber: int, timestamp: int, mixHash: string)

  /** The argument of rpcCall: the block and its transactions. */
  datatype SyncRequest = SyncRequest(block: BvmBlock, transactions: seq<Transaction>)

  /** A deploy's contract inscription, as getInscriptionContent returns it. */
  datatype ContractPayload = ContractPayload(bytecode: Option<JsonValue>, abi: Option<string>)

  /**
   * What a step depends on besides its inputs: the NETWORK setting, the
   * cryptographic functions, the fetch of a contract inscription (None where it
   * throws) and isValidABI.
   */
  datatype Env = Env(
    network: Option<string>,
    crypto: Crypto,
    fetchContract: string -> Option<ContractPayload>,
    isValidAbi: string -> bool)

  /** `data.replace(/^0x/, '')`. */
  function StripHexPrefix(s: string): (r: string)
    ensures Rlp.IsHexPrefixed(s) ==> r == s[2..]
    ensures !Rlp.IsHexPrefixed(s) ==> r == s
  {
    if Rlp.IsHexPrefixed(s) then s[2..] else s
  }

  /** A contract inscription a deploy may use: non-empty text bytecode and a non-empty, valid ABI. */
  predicate ValidContract(env: Env, payload: ContractPayload): (b: bool)
    ensures b ==> payload.bytecode.Some? && payload.bytecode.value.JString? && payload.bytecode.value.s != ""
    ensures b ==> payload.abi.Some? && payload.abi.value != ""
    ensures var code, abi := payload.bytecode, payload.abi;
      code.Some? && code.value.JString? && code.value.s != "" && abi.Some? && abi.value != "" ==>
        (b <==> env.isValidAbi(abi.value))
  {
    && payload.bytecode.Some? && payload.bytecode.value.JString? && payload.bytecode.value.s != ""
    && payload.abi.Some? && payload.abi.value != "" && env.isValidAbi(payload.abi.value)
  }

  /** The deploy of an accepted instruction has a contract inscription that can be fetched and is valid. */
  predicate DeployReady(env: Env, rec: Record): (b: bool)
    ensures b ==> rec.bytecodeLocation.Some? && env.fetchContract(rec.bytecodeLocation.value).Some?
    ensures rec.bytecodeLocation.Some? && env.fetchContract(rec.bytecodeLocation.value).Some? ==>
      (b <==> ValidContract(env, env.fetchContract(rec.bytecodeLocation.value).value))
  {
    && rec.bytecodeLocation.Some?
    && env.fetchContract(rec.bytecodeLocation.value).Some?
    && ValidContract(env, env.fetchContract(rec.bytecodeLocation.value).value)
  }

  /**
   * The transaction one inscription contributes, if any. Every exception on
   * the way (in filter, in the fetch, or the invalid-contract error) is caught
   * and the inscription contributes nothing.
   */
  function InscriptionTransaction(env: Env, ins: Inscription): (r: Option<Transaction>)
    ensures var f := Filter(env.crypto, env.network, ins.content);
      r.Some? <==>
        ins.inscriptionNumber >= 0 && f.Accepted?
        && (f.instruction.action == Some("execute") || DeployReady(env, f.instruction))
    ensures var f := Filter(env.crypto, env.network, ins.content);
      r.Some? && f.Accepted? ==>
        var rec := f.instruction;
        && r.value.txHash == rec.txHash.value
        && rec.nonce == Some(JNumber(r.value.nonce))
        && SignerAddress(env.crypto, env.network, rec).Some?
        && r.value.sender == GenerateHexAddress(env.crypto.keccakText, SignerAddress(env.crypto, env.network, rec).value)
        && (rec.action == Some("execute") ==> r.value.to == rec.contract.value && r.value.data == rec.data.value)
        && (rec.action == Some("deploy") ==>
              && r.value.to == ""
              && r.value.data == env.fetchContract(rec.bytecodeLocation.value).value.bytecode.value.s
                                 + StripHexPrefix(rec.data.value))
  {
    if ins.inscriptionNumber < 0 then None
    else match Filter(env.crypto, env.network, ins.content)
      case Accepted(rec) =>
        var sender := GenerateHexAddress(env.crypto.keccakText, SignerAddress(env.crypto, env.network, rec).value);
        if rec.action == Some("execute") then
          Some(Transaction(sender, rec.contract.value, rec.nonce.value.n, rec.data.value, rec.txHash.value))
        else if DeployReady(env, rec) then
          var payload := env.fetchContract(rec.bytecodeLocation.value).value;
          Some(Transaction(sender, "", rec.nonce.value.n, payload.bytecode.value.s + StripHexPrefix(rec.data.value), rec.txHash.value))
        else None
      case _ => None
  }

  /** What a partial map yields over a list, in list order. */
  function Collect<A, B>(f: A -> Option<B>, xs: seq<A>): (ys: seq<B>)
    ensures |ys| <= |xs|
    decreases |xs|
  {
    if xs == [] then []
    else
      var n := |xs| - 1;
      Collect(f, xs[..n]) + (if f(xs[n]).Some? then [f(xs[n]).value] else [])
  }

  /** Collecting is compositional: what a list yields is what its parts yield, in order. */
  lemma {:induction false} CollectAppend<A, B>(f: A -> Option<B>, a: seq<A>, b: seq<A>)
    ensures Collect(f, a + b) == Collect(f, a) + Collect(f, b)
    decreases |b|
  {
    if b != [] {
      var n := |b| - 1;
      assert (a + b)[..|a + b| - 1] == a + b[..n];
      assert (a + b)[|a + b| - 1] == b[n];
      CollectAppend(f, a, b[..n]);
    } else {
      assert a + b == a;
    }
  }

  /** Everything collected is the image of some item of the list. */
  lemma {:induction false} CollectedHasSource<A, B>(f: A -> Option<B>, xs: seq<A>, y: B)
    requires y in Collect(f, xs)
    ensures exists x :: x in xs && f(x) == Some(y)
    decreases |xs|
  {
    var n := |xs| - 1;
    if y in Collect(f, xs[..n]) {
      CollectedHasSource(f, xs[..n], y);
      var x :| x in xs[..n] && f(x) == Some(y);
      assert x in xs;
    } else {
      assert xs[n] in xs;
    }
  }

  function Contribution(env: Env, ins: Inscription): seq<Transaction> {
    match InscriptionTransaction(env, ins)
    case None => []
    case Some(t) => [t]
  }

  /** The transactions of a height: each inscription's transaction, if any, in listing order. */
  function BlockTransactions(env: Env, inscriptions: seq<Inscription>): (txs: seq<Transaction>)
    ensures |txs| <= |inscriptions|
  {
    Collect(ins => InscriptionTransaction(env, ins), inscriptions)
  }

  /**
   * One inscription at a time: whatever happens to one entry (rejected,
   * throwing, accepted) changes only its own contribution, never the others'.
   */
  lemma OneInscriptionAtATime(env: Env, before: seq<Inscription>, ins: Inscription, after: seq<Inscription>)
    ensures BlockTransactions(env, before + [ins] + after)
         == BlockTransactions(env, before) + Contribution(env, ins) + BlockTransactions(env, after)
  {
    var f := ins => InscriptionTransaction(env, ins);
    CollectAppend(f, before + [ins], after);
    CollectAppend(f, before, [ins]);
    assert [ins][..0] == [];
  }

  /** Every submitted transaction comes from an inscription with a non-negative number that filter accepted. */
  lemma TransactionsComeFromAcceptedInscriptions(env: Env, inscriptions: seq<Inscription>, t: Transaction)
    requires t in BlockTransactions(env, inscriptions)
    ensures exists ins :: (ins in inscriptions && ins.inscriptionNumber >= 0
      && Filter(env.crypto, env.network, ins.content).Accepted?
      && InscriptionTransaction(env, ins) == Some(t))
  {
    CollectedHasSource(ins => InscriptionTransaction(env, ins), inscriptions, t);
    var ins :| ins in inscriptions && InscriptionTransaction(env, ins) == Some(t);
  }

  /** Nothing an item yields is lost: it is among what the whole list yields. */
  lemma CollectKeeps<A, B>(f: A -> Option<B>, xs: seq<A>, j: nat)
    requires j < |xs| && f(xs[j]).Some?
    ensures f(xs[j]).value in Collect(f, xs)
  {
    assert xs == xs[..j] + [xs[j]] + xs[j + 1..];
    CollectAppend(f, xs[..j] + [xs[j]], xs[j + 1..]);
    CollectAppend(f, xs[..j], [xs[j]]);
    assert [xs[j]][..0] == [];
  }

  /** No accepted execute instruction is lost: its transaction is among the height's transactions. */
  lemma AcceptedExecuteIsSubmitted(env: Env, inscriptions: seq<Inscription>, j: nat)
    requires j < |inscriptions| && inscriptions[j].inscriptionNumber >= 0
    requires Filter(env.crypto, env.network, inscriptions[j].content).Accepted?
    requires Filter(env.crypto, env.network, inscriptions[j].content).instruction.action == Some("execute")
    ensures InscriptionTransaction(env, inscriptions[j]).Some?
    ensures InscriptionTransaction(env, inscriptions[j]).value in BlockTransactions(env, inscriptions)
  {
    CollectKeeps(ins => InscriptionTransaction(env, ins), inscriptions, j);
  }

  /** The block timestamp: the bitcoin time, or one more than the last timestamp if that is not later. */
  function NextTimestamp(time: int, lastTimestamp: int): (t: int)
    ensures t > lastTimestamp && t >= time
    ensures t == time || t == lastTimestamp + 1
  {
    if time > lastTimestamp then time else lastTimestamp + 1
  }

  /** The timestamps of successive heights, each step starting from the previous one. */
  function Timestamps(times: seq<int>, lastTimestamp: int): (ts: seq<int>)
    ensures |ts| == |times|
  {
    if times == [] then []
    else
      var t := NextTimestamp(times[0], lastTimestamp);
      [t] + Timestamps(times[1..], t)
  }

  /**
   * Along a run of heights the submitted timestamps strictly increase, never go
   * below the bitcoin times, and all come after the starting timestamp.
   */
  lemma {:induction false} TimestampsIncrease(times: seq<int>, lastTimestamp: int)
    ensures var ts := Timestamps(times, lastTimestamp);
      && (forall j :: 0 <= j < |ts| ==> ts[j] >= times[j] && ts[j] > lastTimestamp)
      && (forall j, k :: 0 <= j < k < |ts| ==> ts[j] < ts[k])
  {
    if times != [] {
      var t := NextTimestamp(times[0], lastTimestamp);
      TimestampsIncrease(times[1..], t);
      var ts := Timestamps(times, lastTimestamp);
      assert forall j :: 1 <= j < |ts| ==> ts[j] == Timestamps(times[1..], t)[j - 1];
    }
  }

  /** Two heights with the same bitcoin time T (after the last timestamp) get T and T + 1. */
  lemma EqualTimesAreSeparated(time: int, lastTimestamp: int)
    requires time > lastTimestamp
    ensures Timestamps([time, time], lastTimestamp) == [time, time + 1]
  {
  }

  /** The mix hash: the bitcoin nonce in lower-case hexadecimal, padded with zeros to 64 digits. */
  function MixHash(nonce: nat): (h: string)
    ensures IsLowerHex(h) && AllHexDigits(h) && HexValue(h) == nonce
    ensures nonce < 0x1_0000_0000 ==> |h| == 64
  {
    PaddedHexValue(nonce);
    if nonce < 0x1_0000_0000 then PaddedHexLength(nonce); PadStart(NumberToHex(nonce), 64, '0')
    else PadStart(NumberToHex(nonce), 64, '0')
  }

  /** Zero padding keeps the digits lower-case hexadecimal and keeps their value. */
  lemma PaddedHexValue(nonce: nat)
    ensures var h := PadStart(NumberToHex(nonce), 64, '0');
      IsLowerHex(h) && AllHexDigits(h) && HexValue(h) == nonce
  {
    HexValueOfNumberToHex(nonce);
    PadStartZeros(NumberToHex(nonce), 64);
  }

  /** A 32-bit nonce prints in at most eight digits, so the padded text is exactly 64 long. */
  lemma PaddedHexLength(nonce: nat)
    requires nonce < 0x1_0000_0000
    ensures |PadStart(NumberToHex(nonce), 64, '0')| == 64
  {
    assert Pow(16, 8) == 0x1_0000_0000;
    NumberToHexLength(nonce, 8);
  }

  /** The answer to one getBlock poll while waiting: the block count, or an exception. */
  datatype Poll = Count(blockCount: int) | PollThrew

  /** A poll that ends the wait: a block count above the old one, or an exception. */
  predicate Decisive(blockCount: int, poll: Poll): (b: bool)
    ensures !b <==> poll.Count? && poll.blockCount <= blockCount
  {
    poll.PollThrew? || poll.blockCount > blockCount
  }

  /** The index of the first decisive poll, or the number of polls if there is none. */
  function FirstDecisive(blockCount: int, polls: seq<Poll>): (k: nat)
    ensures k <= |polls|
    ensures forall j :: 0 <= j < k ==> !Decisive(blockCount, polls[j])
    ensures k < |polls| ==> Decisive(blockCount, polls[k])
  {
    if polls == [] || Decisive(blockCount, polls[0]) then 0
    else 1 + FirstDecisive(blockCount, polls[1..])
  }

  /** How the wait for the next bitcoin block ends, with the number of ten-second sleeps it took. */
  datatype WaitOutcome = Resumed(sleeps: nat) | WaitThrew(sleeps: nat) | StillWaiting(sleeps: nat)

  /** The polling loop: ask for the block count until it grows, sleeping ten seconds after each unchanged answer. */
  method WaitForTip(blockCount: int, polls: seq<Poll>) returns (w: WaitOutcome)
    ensures var k := FirstDecisive(blockCount, polls);
      && (k == |polls| ==> w == StillWaiting(|polls|))
      && (k < |polls| && polls[k].Count? ==> w == Resumed(k))
      && (k < |polls| && polls[k].PollThrew? ==> w == WaitThrew(k))
  {
    var i := 0;
    while true
      invariant 0 <= i <= FirstDecisive(blockCount, polls)
      decreases |polls| - i
    {
      if i == |polls| {
        return StillWaiting(i);
      }
      match polls[i] {
        case PollThrew =>
          return WaitThrew(i);
        case Count(newBlockCount) =>
          if newBlockCount > blockCount {
            return Resumed(i);
          }
      }
      i := i + 1;
    }
  }

  /**
   * The loop over a height's inscriptions: skip negative inscription numbers and
   * rejected instructions, build the execute or deploy transaction, and let the
   * per-item catch drop an inscription whose deploy fails.
   */
  method CollectTransactions(env: Env, inscriptions: seq<Inscription>) returns (transactions: seq<Transaction>)
    ensures transactions == BlockTransactions(env, inscriptions)
  {
    transactions := [];
    for i := 0 to |inscriptions|
      invariant transactions == BlockTransactions(env, inscriptions[..i])
    {
      var inscription := inscriptions[i];
      assert inscriptions[..i + 1][..i] == inscriptions[..i];
      if inscription.inscriptionNumber < 0 {
        continue;
      }
      var filtered := Filter(env.crypto, env.network, inscription.content);
      if !filtered.Accepted? {
        continue;
      }
      var instruction := filtered.instruction;
      // filter derived these addresses already, so the derivation cannot throw here
      var addresses := PublicKeyToAddress(env.crypto.pay, instruction.publicKey.value, Some(NetworkSetting(env.network)));
      var address := Pick(addresses.value, ParseAddressType(instruction.addressType.value).value);
      var hexAddress := GenerateHexAddress(env.crypto.keccakText, address);
      if instruction.action == Some("execute") {
        var transaction := Transaction(hexAddress, instruction.contract.value, instruction.nonce.value.n,
                                       instruction.data.value, instruction.txHash.value);
        transactions := transactions + [transaction];
      } else {
        var payload := env.fetchContract(instruction.bytecodeLocation.value);
        if payload.None? || !ValidContract(env, payload.value) {
          continue;
        }
        var transaction := Transaction(hexAddress, "", instruction.nonce.value.n,
                                       payload.value.bytecode.value.s + StripHexPrefix(instruction.data.value),
                                       instruction.txHash.value);
        transactions := transactions + [transaction];
      }
    }
    assert inscriptions[..|inscriptions|] == inscriptions;
  }

  /** Where the chain of sync calls stands: the height to process and the last submitted timestamp. */
  datatype Cursor = Cursor(height: int, lastTimestamp: int)

  /**
   * How one sync call ends: it calls sync for the next height, or an exception
   * ends the chain (after a submission or before one), or it is still waiting
   * for the next bitcoin block.
   */
  datatype StepOutcome =
    | Continued(request: SyncRequest, next: Cursor, sleeps: nat)
    | Halted(submitted: Option<SyncRequest>)
    | Waiting(request: SyncRequest, sleeps: nat)

  /** The request submitted for a height. */
  function RequestFor(env: Env, cursor: Cursor, block: InscriptionBlock, info: BlockInfo): (r: SyncRequest)
    ensures r.block.blockHash == info.hash && r.block.blockNumber == info.height
    ensures r.block.timestamp > cursor.lastTimestamp && r.block.timestamp >= info.time
    ensures r.block.timestamp == NextTimestamp(info.time, cursor.lastTimestamp)
    ensures r.block.mixHash == MixHash(info.nonce) && IsLowerHex(r.block.mixHash)
    ensures AllHexDigits(r.block.mixHash) && HexValue(r.block.mixHash) == info.nonce
    ensures info.nonce < 0x1_0000_0000 ==> |r.block.mixHash| == 64
    ensures r.transactions == BlockTransactions(env, block.inscriptions)
  {
    SyncRequest(
      BvmBlock(info.hash, info.height, NextTimestamp(info.time, cursor.lastTimestamp), MixHash(info.nonce)),
      BlockTransactions(env, block.inscriptions))
  }

  /**
   * sync for one height. `block` and `info` are the answers of getBlock and
   * getBlockInfoByHeight, `rpcAccepted` says whether rpcCall resolved, and
   * `polls` are the answers while waiting for the next block.
   */
  method SyncStep(env: Env, cursor: Cursor, block: Option<InscriptionBlock>, info: Option<BlockInfo>,
                  rpcAccepted: bool, polls: seq<Poll>)
    returns (out: StepOutcome)
    ensures block.None? || info.None? ==> out == Halted(None)
    ensures block.Some? && info.Some? ==>
      var request := RequestFor(env, cursor, block.value, info.value);
      var next := Cursor(cursor.height + 1, request.block.timestamp);
      var k := FirstDecisive(block.value.blockCount, polls);
      && (!rpcAccepted ==> out == Halted(Some(request)))
      && (rpcAccepted && cursor.height < block.value.blockCount ==> out == Continued(request, next, 0))
      && (rpcAccepted && cursor.height >= block.value.blockCount ==>
            && (k == |polls| ==> out == Waiting(request, |polls|))
            && (k < |polls| && polls[k].Count? ==> out == Continued(request, next, k))
            && (k < |polls| && polls[k].PollThrew? ==> out == Halted(Some(request))))
  {
    if block.None? || info.None? {
      return Halted(None);
    }
    var blockCount := block.value.blockCount;
    var inscriptions := block.value.inscriptions;
    var blockInfo := info.value;

    var transactions := CollectTransactions(env, inscriptions);

    var timestamp := NextTimestamp(blockInfo.time, cursor.lastTimestamp);
    var request := SyncRequest(BvmBlock(blockInfo.hash, blockInfo.height, timestamp, MixHash(blockInfo.nonce)), transactions);
    assert request == RequestFor(env, cursor, block.value, info.value);
    if !rpcAccepted {
      return Halted(Some(request));
    }

    var sleeps := 0;
    if cursor.height >= blockCount {
      var w := WaitForTip(blockCount, polls);
      match w {
        case StillWaiting(n) =>
          return Waiting(request, n);
        case WaitThrew(_) =>
          return Halted(Some(request));
        case Resumed(n) =>
          sleeps := n;
      }
    }
    out := Continued(request, Cursor(cursor.height + 1, timestamp), sleeps);
  }
}
