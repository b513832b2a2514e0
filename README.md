# Veda bridge: validate and forward

A Dafny model of the core of the Veda bridge. The bridge reads Veda
inscriptions from a bitcoin ord index and validates each one as a signed
instruction. It turns the accepted instructions into transactions and submits
one block per bitcoin height to the execution layer.

The model covers these parts:

- **Instruction codec and validation** (`Instruction`, `Rlp`, `Bytes`):
  - `serializeInstruction`: the eight-item list, encoded with Recursive Length
    Prefix as defined in Appendix B of the Ethereum Yellow Paper. It also
    models the rlp package's conversion of JavaScript strings and numbers to
    bytes.
  - `filter`: the chain of checks from parsing through the signature.
- **Per-height sync step** (`Sync`): the loop that collects transactions, the
  timestamp, the mix hash, submission, and the wait for the next bitcoin block.
- **Retry helpers** (`Retry`, `Request`): the `retry` loop, the `autoRetry`
  defaults and timer, and `getRequest`'s 4xx rule.
- **Address helpers** (`Address`): `toXOnly`, `publicKeyToAddress`,
  `generateHexAddress` and `generateContractAddress`.

Foreign functions are passed in as function-typed values: keccak256 over text
and over bytes, the bitcoinjs-lib payment builders, verifyMessage, isValidABI,
and the fetch of a deploy's contract inscription. `JSON.parse` is
represented by its result: unparseable, `null`, or a record of the properties
the bridge reads. A network call is represented by what it returned or by
the fact that it threw.

The bridge is meant to behave in ways its code does not always follow. Where
the two differ, the model follows the code:

- **Failures end the sync chain instead of retrying the height.** The intended
  behaviour is that a height whose processing fails is tried again. In the
  code, a throw from `getBlock`, `getBlockInfoByHeight` or `rpcCall` is not
  caught inside `sync`. `sync` calls itself without awaiting, so such a throw
  is an unhandled rejection and the chain of `sync` calls ends.
  `Sync.SyncStep` returns `Halted` here. Only failures inside the
  per-inscription loop are caught.
- **Both references are accepted.** The intended instruction carries exactly
  one of `contract` and `bytecodeLocation`. `filter` only checks for the one
  the action needs, and the other one is not hashed
  (`Instruction.ExtraReferenceIgnored`).
- **The hash is not sensitive to every field.** The intent is that changing
  any hashed field changes the hash. The rlp package reads '0x'-prefixed text
  as hex and other text as UTF-8, so different texts can hash alike
  (`Instruction.HexAndTextDataCollide`).
- **filter can throw.** The intent is that filter drops a bad inscription
  quietly. It throws (its promise rejects) on `null` content, on a
  serialisation the rlp package refuses, and when publicKeyToAddress throws
  (`Instruction.Filter`). Each of these is caught by the per-inscription
  catch of `sync`.
- **The hash comparison is exact.** The text `txHash` must equal keccak256's
  lower-case '0x'-prefixed output character for character; nothing
  canonicalises it first.

The library behaviour modelled is that of rlp 3.x (the default `RLP` export):
'0x' text is read by a strict hex reader. The model throws on any non-hex
digit; the package itself reads some such digits leniently (see `Rlp.ValueBytes`
under "## Left out"). For
keccak256 it is that of web3-utils 4.x: lower-case '0x'-prefixed hex, never
null. The versions are not fixed in the source files themselves.

## Model

| member | source | states |
|---|---|---|
| Address.ToXOnly | src/address.ts:6 | a 32-byte key is returned unchanged; any other buffer becomes its bytes 1 to 32, clamped to the buffer; a 33- or 65-byte key gives exactly 32 bytes |
| Address.NetworkTypeOrDefault | src/address.ts:9 | an omitted networkType is 'mainnet'; a given one is used as it is |
| Address.NetworkOf | src/address.ts:11 | the bitcoin network exactly when networkType is 'mainnet', testnet for every other value |
| Address.PublicKeyToAddress | src/address.ts:9-24 | the derivation succeeds exactly when all four builders do; p2tr is built from the x-only key and p2pkh, p2sh-p2wpkh and p2wpkh from the full key, all under one network |
| Address.GenerateHexAddress | src/address.ts:26-28 | 42 characters: '0x' followed by the last 40 lower-case hex digits of the digest of the address |
| Address.HexAddressIsLastTwentyBytes | src/address.ts:26-28 | when the digest prints 32 bytes, the hex address prints exactly the last 20 of them |
| Address.ContractAddressInput | src/address.ts:31 | the rlp encoding of [walletAddress, nonce] fails exactly for a negative nonce, a '0x' walletAddress with a non-hex digit, or a list too long for eight length bytes |
| Address.GenerateContractAddress | src/address.ts:30-35 | the same 42-character lower-case shape, cut from the digest of the encoded pair; it fails exactly when the encoding fails |
| Address.ContractAddressCommitsToWalletAndNonce | src/address.ts:30-32 | the hashed input decodes to exactly two items: the wallet address's bytes and the nonce's minimal big-endian bytes |
| Bytes.BufferFromHexOfHex | src/address.ts:10 | Buffer.from(..., 'hex') reads the hex of a byte string back as that byte string, whatever follows it |
| Bytes.BufferFromHex | src/address.ts:10 | Buffer.from(..., 'hex') reads whole digit pairs and stops at the first pair that is not, so the buffer is at most half as long as the text |
| Bytes.HexToBytesOfHex | src/updater/index.ts:118 | the rlp package's hex reading inverts hex printing |
| Bytes.NumberHexIsBigEndian | src/updater/index.ts:114 | a positive number written as even-length hex by the rlp package is its minimal big-endian bytes |
| Bytes.HexValueOfNumberToHex | src/updater/index.ts:252 | toString(16) prints a digit string whose value is the number |
| Bytes.NumberToHexLength | src/updater/index.ts:252 | a number below 16^k prints in at most k hex digits |
| Bytes.NumberToHex | src/updater/index.ts:252 | toString(16) prints at least one lower-case hex digit, with a leading zero only for 0, which prints "0" |
| Bytes.PadStart | src/updater/index.ts:252 | padStart leaves text already long enough unchanged; shorter text gets fill characters in front up to the length, and the text itself always ends the result |
| Bytes.PadStartZeros | src/updater/index.ts:252 | padding hex digits with '0' keeps them digits, keeps lower-case digits lower-case, and keeps their value |
| Rlp.EncodeList | src/updater/index.ts:118 | encoding a list succeeds exactly when every length fits the eight length bytes a prefix can announce |
| Rlp.DecodeBytesOfEncode | src/updater/index.ts:118 | one encoded byte string, whatever follows it, decodes to exactly that string and the number of bytes its encoding takes |
| Rlp.DecodeListOfEncodeList | src/updater/index.ts:118 | decoding an encoded list of byte strings gives back exactly the items, in order |
| Rlp.EncodeListInjective | src/updater/index.ts:118 | two lists with the same encoding are equal |
| Rlp.NumberBytesAreBigEndian | src/updater/index.ts:114 | a non-negative number becomes its minimal big-endian bytes (zero becomes no bytes); exactly the negative ones make the encoder throw |
| Rlp.ValueBytes | src/updater/index.ts:108-118 | the rlp package's conversion of one value throws exactly for a negative number or for '0x' text with a non-hex digit after the prefix; other text and undefined always convert |
| Rlp.ValuesBytes | src/updater/index.ts:108-118 | the conversion of a list succeeds exactly when every item converts, and then item by item |
| Rlp.Encode | src/updater/index.ts:118 | RLP.encode throws exactly when a value fails to convert or a length does not fit a prefix; its output starts with a list prefix (0xc0 or above) |
| Rlp.DecodeEncode | src/updater/index.ts:107-118 | what RLP.encode produces decodes to the converted bytes of each value, in the order given |
| Instruction.ParseAction | src/updater/index.ts:141 | only 'execute' and 'deploy' are actions, and each reads back to its own text |
| Instruction.ParseAddressType | src/updater/index.ts:142 | only the four address types are accepted, each reading back to its own text |
| Instruction.ParseSigType | src/updater/index.ts:143 | only 'ecdsa' and 'bip-322' are accepted, each reading back to its own text |
| Instruction.InstructionArray | src/updater/index.ts:108-117 | the array has eight items: all text except the reference (text, or undefined when the action's reference is absent) and the nonce (a number); the fourth item is the action's tag |
| Instruction.SerializeInstruction | src/updater/index.ts:107-119 | serialisation throws exactly when some field throws in toBytes (a negative nonce, or p, publicKey, the reference or data as '0x' text with a non-hex digit) or the list does not fit in eight length bytes; each field's throw case is also stated alone; its output is an RLP list |
| Instruction.ItemThrowsExactly | src/updater/index.ts:108-117 | some item of the eight-item array fails to convert exactly when the nonce is negative or one of p, publicKey, the reference (contract for an execute, bytecodeLocation for a deploy) or data is '0x' text with a non-hex digit |
| Instruction.ItemConverts | src/updater/index.ts:108-117 | when no field throws, every item converts; the addressType, action and sigType tags are never '0x' text |
| Instruction.SerializedItems | src/updater/index.ts:107-119 | the serialisation decodes to exactly eight items in the order p, publicKey, addressType, action, reference, nonce, data, sigType; the reference is bytecodeLocation for a deploy and contract otherwise; the nonce is non-negative and its big-endian bytes |
| Instruction.ActionChangesSerialisation | src/updater/index.ts:112-113 | an execute and a deploy instruction never serialise alike |
| Instruction.HexAndTextDataCollide | src/updater/index.ts:115-118 | data written as '0x' plus the hex of a text's UTF-8 bytes serialises exactly like that text |
| Instruction.NetworkSetting | src/updater/index.ts:193 | an unset or empty NETWORK setting means 'mainnet'; any other value is passed on |
| Instruction.ContentChecks | src/updater/index.ts:134-147 | the content checks pass exactly when publicKey, txHash, data and sig are non-empty text, nonce is present, action is 'execute' or 'deploy', addressType one of the four types and sigType 'ecdsa' or 'bip-322' |
| Instruction.SerialOf | src/updater/index.ts:161-186 | the hashed instruction copies p, publicKey, addressType, action, data, nonce and sigType from the record, and only the reference its action needs |
| Instruction.CheckSigned | src/updater/index.ts:160-197 | the hash and signature stages accept a record exactly when keccak256 of its serialisation equals txHash and verifyMessage accepts sig for the address of the declared type; they throw exactly when serialisation throws, or the hash matches and publicKeyToAddress throws; a wrong hash and a refused signature are rejected as such |
| Instruction.SignerAddress | src/updater/index.ts:193 | the signer address exists exactly when publicKeyToAddress succeeds under the NETWORK setting; it is the p2tr builder's output on the x-only key for p2tr, and the matching builder's output on the full key for p2pkh, p2sh (p2sh-p2wpkh) and p2wpkh |
| Instruction.Filter | src/updater/index.ts:121-198 | unparseable content is rejected and null content throws; a wrong or missing p is rejected; failed content checks, a missing contract or bytecodeLocation, and a non-numeric nonce are each rejected quietly under their own reason; a record is accepted, unchanged, exactly when all conditions hold together; filter throws exactly on null content, on a serialisation the rlp package refuses, and on a throwing publicKeyToAddress after the hash matched; a hash or signature rejection happens exactly when that check fails |
| Instruction.SerialisationExcludesHashAndSig | src/updater/index.ts:162-186 | changing txHash or sig leaves the hashed instruction unchanged |
| Instruction.AcceptanceSurvivesDataRewrite | src/updater/index.ts:161-197 | an accepted instruction whose data is the hex of a text is still accepted, with the same txHash and sig, when its data is replaced by that text |
| Instruction.ExtraReferenceIgnored | src/updater/index.ts:148-175 | an accepted execute instruction stays accepted when a bytecodeLocation is added |
| Instruction.AcceptedLikeAccepted | src/updater/index.ts:121-198 | a record that passes the content checks and shares an accepted record's hashed bytes, txHash, sig, sigType and signer is accepted too |
| Retry.Retry | src/utils.ts:12-35 | the loop returns the outcome and performs the calls and sleeps that RetryOutcome and RetryTrace describe |
| Retry.FirstStop | src/utils.ts:21-32 | the first attempt that resolves or that the handler declares final; every attempt before it failed and was not final |
| Retry.RetryCharacterised | src/utils.ts:21-34 | each failure before the first stopping attempt is followed by one sleep of the delay; the run returns the first success or throws the first final error at once, with no further call or sleep; without a stopping attempt it has not ended; the verdict on an attempt depends only on that attempt's error |
| Retry.RoundsShape | src/utils.ts:21-34 | in the rounds before the run ends, each call is followed by exactly one sleep of the configured delay |
| Retry.NoHandlerNeverThrows | src/utils.ts:18-31 | without an error handler retry never throws |
| Retry.LaterAttemptsIgnored | src/utils.ts:21-31 | attempts after the first stopping one change neither the outcome nor the calls and sleeps |
| Retry.EffectiveDelay | src/utils.ts:54 | a given non-zero delay is kept; an undefined or zero delay becomes 1000 |
| Retry.Deadline | src/utils.ts:51 | exactly a timeout of 0 disables the timer; an undefined timeout becomes 30000 and any other value is used as given |
| Retry.TimerDelay | src/utils.ts:51 | Node's timer delay is between 1 and 2^31 - 1: it equals the request within that range and is 1 outside it |
| Retry.Race | src/utils.ts:49-52 | a call slower than the timer rejects with the timer's undefined; a call within the timer, or with no timer, keeps its own result: its value, or its error as raised by the function |
| Retry.RaceAll | src/utils.ts:48-52 | each call is raced independently, in order |
| Retry.AutoRetry | src/utils.ts:37-58 | autoRetry is retry over the raced calls, with the defaulted delay and the caller's handler; an omitted config means delay 1000, timeout 30000 and no handler |
| Retry.DefaultsMatchEmptyConfig | src/utils.ts:42-54 | passing no config and passing an empty one give the same delay (1000) and deadline (30000) |
| Retry.NoDeadlineNoTimeouts | src/utils.ts:51 | with a timeout of 0 no call ever times out |
| Retry.SlowCallFails | src/utils.ts:49-52 | with a timer set, a call slower than it fails even if it would have resolved |
| Request.IsClientError | src/updater/index.ts:75-82 | the error handler declares a failure final exactly when it is a response with a status from 400 to 499 |
| Request.ClientErrorIsFourHundreds | src/updater/index.ts:76 | floor(status / 100) == 4 holds exactly for the statuses 400 to 499 |
| Request.DefaultRequestDelay | src/updater/index.ts:69 | the default delay floor(random * 91) + 10 lies between 10 and 100 |
| Request.RequestConfig | src/updater/index.ts:70-83 | getRequest asks for no timer, passes its delay, and uses the 4xx test as error handler |
| Request.GetRequest | src/updater/index.ts:69-86 | a request is retry over the untimed calls, with the 4xx test as handler and the given or default delay |
| Request.RequestStops | src/updater/index.ts:75-82 | a call ends the request exactly when it succeeds or fails with a 4xx status |
| Request.ServerErrorsRetriedForever | src/updater/index.ts:70-83 | calls that keep failing without a 4xx status never end the request |
| Request.DefaultDelayBetweenCalls | src/updater/index.ts:69-74 | with the default delay every sleep lasts 10 to 100 ms |
| Sync.StripHexPrefix | src/updater/index.ts:235 | one leading '0x' is removed and other text is kept |
| Sync.ValidContract | src/updater/index.ts:230 | a usable contract inscription has a non-empty text bytecode and a non-empty abi; given those, it is usable exactly when isValidABI accepts the abi |
| Sync.DeployReady | src/updater/index.ts:228-230 | a deploy can go ahead only when its bytecodeLocation is fetched; once fetched, exactly when the contract inscription is usable |
| Sync.InscriptionTransaction | src/updater/index.ts:211-242 | an inscription contributes a transaction exactly when its number is non-negative, filter accepts it, and it is an execute or a deploy whose contract inscription is fetched and valid; the sender is the hex address of the address the signature was verified for; txHash and nonce are the instruction's; an execute sends data to its contract; a deploy sends bytecode followed by data without one leading '0x' to '' |
| Sync.Collect | src/updater/index.ts:210-243 | a listing never yields more items than it has |
| Sync.CollectAppend | src/updater/index.ts:210-243 | the items of a listing are those of its parts, in order |
| Sync.CollectedHasSource | src/updater/index.ts:210-243 | every collected item is the image of an item of the listing |
| Sync.CollectKeeps | src/updater/index.ts:210-243 | whatever one item yields is among what the whole listing yields |
| Sync.BlockTransactions | src/updater/index.ts:207-243 | a height has at most as many transactions as inscriptions |
| Sync.OneInscriptionAtATime | src/updater/index.ts:210-243 | one inscription's result changes only its own contribution; the ones before and after it contribute as they would alone |
| Sync.TransactionsComeFromAcceptedInscriptions | src/updater/index.ts:210-238 | every transaction comes from an inscription with a non-negative number that filter accepted |
| Sync.AcceptedExecuteIsSubmitted | src/updater/index.ts:218-226 | an accepted execute instruction with a non-negative number always has its transaction in the height's list |
| Sync.CollectTransactions | src/updater/index.ts:207-243 | the loop with its skips and per-item catch builds exactly the transactions of the height |
| Sync.NextTimestamp | src/updater/index.ts:246 | the timestamp is the least value that is after the last timestamp and not before the bitcoin time |
| Sync.TimestampsIncrease | src/updater/index.ts:246 | over successive heights the timestamps strictly increase, follow the starting timestamp and are never below the bitcoin times |
| Sync.EqualTimesAreSeparated | src/updater/index.ts:246 | two heights with the same bitcoin time T get T and T + 1 |
| Sync.RequestFor | src/updater/index.ts:246-255 | the submitted block carries bitcoin's hash and height; its timestamp is NextTimestamp of the bitcoin time and the last timestamp, so after the last one and not before the bitcoin time; its mix hash is MixHash of the nonce, lower-case hex whose value is the nonce (64 digits for a 32-bit nonce); its transactions are the height's |
| Sync.MixHash | src/updater/index.ts:252 | lower-case hex whose value is the nonce, 64 characters for any 32-bit nonce |
| Sync.PaddedHexValue | src/updater/index.ts:252 | the zero-padded digits of the nonce are lower-case hex and keep the nonce's value |
| Sync.PaddedHexLength | src/updater/index.ts:252 | a 32-bit nonce padded to 64 digits is exactly 64 characters long |
| Sync.FirstDecisive | src/updater/index.ts:260-264 | the first poll that throws or reports a larger block count; every poll before it reported no new block |
| Sync.Decisive | src/updater/index.ts:261-263 | the wait goes on after a poll exactly when it answers with a block count no larger than the old one |
| Sync.WaitForTip | src/updater/index.ts:259-265 | the wait resumes at the first poll that reports a new block, after one sleep per earlier poll; an exception in a poll ends it; without either it is still waiting |
| Sync.SyncStep | src/updater/index.ts:200-267 | if getBlock or getBlockInfoByHeight throws, nothing is submitted and the chain ends; otherwise the submitted block carries bitcoin's hash and height, the next timestamp, the mix hash and the height's transactions; if rpcCall throws the chain ends; otherwise sync moves on to height + 1 with the new timestamp, at once when the height is below the block count and after the wait otherwise |

## Left out

- I/O and foreign libraries:
  - keccak256, the bitcoinjs-lib payment builders, verifyMessage (src/verifier.ts), JSON.parse and isValidABI are passed in as functions, not defined.
  - A payment builder may throw; the model carries that as None, and publicKeyToAddress and filter then throw.
  - keccak256 and verifyMessage are modelled as never throwing, although neither call is guarded by a catch in filter.
- The HTTP and JSON-RPC clients (src/bitcoin-client/index.ts, src/bvm-client/index.ts) are not part of this model. A call's answer, or the fact that it threw, is an input.
- `getBlock` and `getInscriptionContent` are represented by their settled results. A request that is retried forever (`Request.ServerErrorsRetriedForever`) stalls `sync`; the step model does not represent that stall.
- The endless self-recursion of `sync` and `init` is not modelled. `init` (src/updater/index.ts:269-289) is not part of this model. One step is modelled, and its outcome names the next cursor.
- Sync.TimestampsIncrease: the starting timestamp is assumed to be an integer. src/index.ts:17-18 starts the updater without one, so in the source `lastTimestamp` starts undefined and the forwarded timestamps are NaN; that start is not modelled.
- Sleeping and timers are events in a trace; no time passes. Retry.Race decides a tie between a call and its timer in favour of the call; Node gives no such guarantee.
- `printError` logging, console output, the progress bar, reads of `process.env` other than NETWORK, src/progress.ts, src/index.ts and src/db.ts are not modelled.
- JSON values:
  - Text properties other than nonce and a contract's bytecode are modelled as text or absent. A record property holding a number, an object or `null` is not modelled; in particular `"contract": null` passes filter's `=== undefined` test, becomes no bytes in the rlp package and is forwarded as `to: null`, which the model does not represent.
  - A non-integral nonce is not modelled.
  - A non-string abi is not modelled.
- Instruction.Filter: when a derivation throws inside `filter`, the result is the exception; which library threw is not distinguished.
- Rlp.ValueBytes:
  - an invalid hex digit after '0x' makes the model throw, whereas the package's parseInt would read some such digits leniently;
  - lengths of 2^64 bytes or more count as a failure;
  - text containing lone UTF-16 surrogates (which TextEncoder writes as U+FFFD) is not representable: a Dafny `char` is a Unicode scalar value.
