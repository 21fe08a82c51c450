# MT8113 stage2 and reflash tool: verified model

A Dafny model of the code that reads and writes the eMMC of an MT8113 device: the host tool
(`mt8113_reflash.py`, `gpt_parser.py`), the stage2 payload it talks to (USB framing, command loop,
eMMC driver, printf, software division), and the SHA-256, HMAC, RPMB, PIO and clock code of the
original payload. `dafny verify dfyconfig.toml` checks everything.

## The storage stack

`Card` describes the environment: an eMMC card following the state machine of JESD84-B51 section 6.4
behind a controller with two FIFOs. The card makes progress when it likes, may ignore any command, may
refuse a partition switch after taking it and a block after receiving it, answers the first read
after a switch or a write with arbitrary data, and may damage any block that it sends, by other words or by
missing ones. `Msdc` gives the register accesses; each lets time pass. Of a damaged block it promises only
that a look at MSDC_INT shows INT_DATCRCERR or INT_DATTMO once the card has sent all that it will send. It
also keeps a trace of the commands and of the looks at MSDC_INT, by which the driver's contracts give its
commands with arguments and flags and the numbers of its polls. `Emmc` is the driver of
`stage2_static/mt8113_emmc.c`, `Stage2` the command loop over a USB link of two byte queues, `Host` the class
`MT8113USB`, `Flash` and `Gpt` the operations of the tool. Each layer is proved against the contract of the one below, so the main
results hold of the whole stack:

- Calls that return normally behave like a plain map from (region, sector) to 512 bytes
  (`Host.Run`, `Host.ReplayIsLastWrite`, `Host.ReadsBack`), for as long as the driver knows the card's
  partition. With candid and obliging hardware that is always. With other hardware it is up to the first
  call that may make the driver wrong, which can be told from the calls (`Host.MayLose`): a `get_ext_csd`
  when a boot region was the last to be accessed, if the hardware is not candid, and an access to a region
  that the driver does not believe in, if the card may refuse a switch. Calls that stay in the user area
  after the boot code are never among them.
- Hardware is candid if a command reported as failed had no effect and CMD6 and CMD7 end within the poll
  budget, and obliging if the card carries out every switch that it takes. The cached partition equals the
  card's in every state that any calls of the driver lead to, failing ones included, on candid hardware
  that refuses no switch. In general it becomes wrong exactly in a call in which the driver has not cached a
  partition to which the card moved, or has cached one to which the card refused to move; only the second
  initialization of an EXT_CSD dump may put right what the first one has lost (`Emmc.RunDriver`; the contracts
  of the driver's calls have the condition for each).
- A write can change one sector of the card's partition, also when it raises, and whether or not the
  driver is right about the partition; if it is, the sector is the one addressed, a file changes only its
  range and a partition write only the partition.
- `write_flash` then `read_flash` gives the zero-padded file; a round-trip test that returns leaves
  the flash as it was. The commands `read`, `write` and `roundtrip-test`, which dump EXT_CSD first, keep
  these properties on candid and obliging hardware, and on any hardware in the user area if the driver
  believes in it when they start (`Flash.MainRead`, `Flash.MainWrite`, `Flash.MainRoundtripTest`).

The boot code makes the driver know the partition: `Stage2.Device.Boot`. What is said of the words of a
write needs a card that takes them out of the transmit FIFO whole and refuses no block (`wholeWords` and
`Accepting`, part of `Stage2.Device.Clean`); which looks at the FIFO lose words is in `Emmc.PushWords`, and
what is written if a block is refused in `Emmc.Driver.WriteSector`. A link may answer reads of the host
with empty chunks, but not for ever (`Stage2.Link.idle`).

These say what a successful call means and what a failed one leaves alone. That calls do succeed is
proved for hardware that wastes no time: a controller with `prompt` set makes all possible progress
before every access, takes every legal command and reports no errors. With it `emmc_init`, the
partition switch, reads, writes and the EXT_CSD dump succeed on every sector that exists, and so do
runs of host calls, file transfers, the round-trip test and partition writes over a link that does
not time out while bytes are there (`Fit`, `Reachable`, `Servable`, `Readable`). None of the safety
results depends on it. The PIO and RPMB environments have a flag `works` to the same end.

`Lockstep` is a second model of the link, as a state machine of small steps: bytes travel in pieces
of any size and host and device interleave freely. Every schedule refines the same plain map as
`Host.Run`, under the same condition (`Lockstep.RefinesPlainMap`, `Lockstep.KnownUnlessLost`,
`Simulation.SamePlainMap`). Neither its device nor its host is an assumption: `Simulation` proves that the
turns of the command loop of `Stage2` are Serve steps of that machine, that its other device steps cannot
be seen, and that every session of the host is one of its runs (`Simulation.Session`). The three share
`Protocol`: the bytes of a command, how the device parses them, and what a turn means.

## The other parts

- `Sha256Spec` is FIPS 180-4 written out, `Sha256` the code of `crypto/sha256.c` proved against it,
  `Hmac` RFC 2104 on top. `Sha256Constants` ties every constant to the cube or square root of its prime,
  and `Sha256Vector` computes the digest of "abc", word by word and round by round.
- `Rpmb` has the frame of JESD84-B51 section 6.6.22 as a record with an encoding and a decoding that are
  inverse to each other; the frame code is specified by its effect on the record, the operations by
  what crosses the bus.
- `PrintfText` says what a format prints, as a function; `Printf` is the formatter with its sink.
  `PrintfDirectives` says that every conversion specification is read as it is spelled, and `PrintfFacts`
  what the printed numbers mean. `Division` is the shift-subtract divider that the
  payload is linked with.
- `Registers` and `Clock` are the field macros and the clock divider, `Pio` the two PIO loops.

## Where the code does not do what it seems to promise

- `%#b` of a number with more than 30 binary digits lacks part of its prefix, because the scratch buffer
  ends at 32 characters (`PrintfFacts.HashedConversion`).
- A `%d` or `%i` whose digits fill the width exactly loses its leading digit to the sign: `"%2d"`
  prints -12 as `-2` (`PrintfFacts.SignDropsDigit`); `PrintfFacts.SignedConversion` says exactly when.
- `hmac_sha256` reads the key again after writing the inner digest; the result is the HMAC for every
  inner digest exactly if output and key do not overlap or the key is long or empty
  (`Hmac.SameKeyIffSurvives`).
- `emmc_switch_partition` looks at command-ready and at the card's state, and not at SWITCH_ERROR, which
  the older driver checks (mmc.c:286). A card that takes CMD6 and stays where it is makes it return 0 with
  the cache wrong; what the driver can see of a switch means that the card is in the partition asked for
  if and only if it was there before (`Emmc.RefusedUnseen`). From the user area, a refused CMD6 for boot0
  and the CMD24 after it put the block into the user area, and the write returns 0
  (`Emmc.MisdirectedWrite`, `Emmc.Driver.WriteSector`).
- The XFER_COMPL wait of `emmc_write_sector` takes running out of polls for success, and a completion
  seen by the very last poll for a timeout (`Emmc.WaitTransfer`). Success rests on the status poll, so a
  block that the card refused for its checksum, without an interrupt that shows it, counts as written:
  success means written if and only if no block was refused (`Emmc.DeliverBlock`).
- The TX FIFO check `tx_count < 128` followed by a four-byte push keeps the FIFO within 128 bytes
  exactly if no look sees 125 to 127 bytes (`TxFifo.NeverOverfull`, `TxFifo.ByteDrainOverfills`); in the
  driver model a word is lost exactly then (`Emmc.PushWords`). A card that takes whole words never causes
  that.
- `emmc_read_ext_csd` runs `emmc_init` and ignores its outcome. From a card in a boot partition, as
  `roundtrip-test` leaves it, CMD0, CMD1, CMD2, CMD3 and CMD7 can all be taken with the response to CMD7
  showing too late: the card is then in the user area and the cache still says boot partition. Whether a
  silent initialization leaves the cache right depends on nothing but whether it said user area before
  (`Emmc.LostBehindTheBack`). Afterwards reads and writes of the cached region go to the user area
  (`Emmc.Driver.ReadSector`, `Emmc.Driver.WriteSector`). A driver that believes in the user area never
  loses the partition in this way, on any hardware (`Emmc.Driver.ReadExtCsd`), and calls that dump EXT_CSD
  only then are always faithful (`Host.Run`).
- The comment at stage2.c:131 says that zeros are sent if reading EXT_CSD fails; the words received so far
  are.
- `send_command` packs arguments one by one. If one does not fit 32 bits it raises with the command
  cut short on the wire, and the device reads the next command's header as arguments
  (`Host.CutShortMisreads`).
- `mmc_rpmb_send_command` ignores the result of the PIO transfer, so a zero return means that the frames
  have crossed the bus if and only if no transfer of that call failed; on a bus that loses every transfer
  all operations return zero (`Rpmb.Partition.Send`, `Rpmb.PartitionOps`, `Rpmb.RpmbWrite`).
- `kick_watchdog` has no reply, so it may return before the device has seen it: a call made at rest ends
  with both queues empty on every schedule if and only if it has a reply (`Lockstep.RestIffReplied`).
- `_vsnprintf` returns its length as an int: texts of 2^31 characters or more are reported wrongly
  (`Printf.Vsnprintf`). From 2^32 characters on the index wraps and the text overwrites itself
  (`Printf.StoredText`, `Printf.Snprintf`).
- `msdc_config_clock` would set divider and clock to zero if adding the divisor to the source clock wrapped,
  and would spill a divider of 13 bits into the mode bits; neither can happen with the clocks of the tables
  (`Clock.SourcesInRange`).
- `mmc_rpmb_post_frame` takes the MAC of a READ_DATA response from behind the frame; its caller passes no
  MAC buffer (`Rpmb.CoreRequest.PostFrame`).
- `__aeabi_uidiv` is exact except for a divisor of 1 and a dividend of 2^31 or more; a divisor of
  zero yields zero.
- The parser accepts every GPT entry size from 128 to 512, not only powers of two; 0 and sizes above
  512 raise a division error. `write_partition` does not check that the partition leaves the table
  alone; `Gpt.TableSurvives` says when it does.

## Model

| member | source | states |
|---|---|---|
| Sha256Spec.ZeroPadIsLeast | stage2_static_orig/crypto/sha256.c:198-205 | the number of zero bytes is the least that fills blocks, as FIPS 180-4 section 5.1.1 asks |
| Sha256Constants.RoundConstantsAreCubeRoots | stage2_static_orig/crypto/sha256.c:75-92 | each of the 64 constants is the first 32 bits of the fraction of the cube root of its prime |
| Sha256Constants.InitialStateIsSquareRoots | stage2_static_orig/crypto/sha256.c:15-22 | the eight initial words come from the square roots of the first eight primes in the same way |
| Sha256Spec.BigSigma0Bit | stage2_static_orig/crypto/sha256.c:26 | bit i is the exclusive or of bits i+2, i+13 and i+22 of the word, modulo 32 |
| Sha256Spec.BigSigma1Bit | stage2_static_orig/crypto/sha256.c:27 | bit i is the exclusive or of bits i+6, i+11 and i+25, modulo 32 |
| Sha256Spec.SmallSigma0Bit | stage2_static_orig/crypto/sha256.c:28 | bit i is the exclusive or of bits i+7 and i+18, modulo 32, and of bit i+3, if there is one |
| Sha256Spec.SmallSigma1Bit | stage2_static_orig/crypto/sha256.c:29 | bit i is the exclusive or of bits i+17 and i+19, modulo 32, and of bit i+10, if there is one |
| Sha256Vector.AbcDigest | stage2_static_orig/crypto/sha256.c:164-171 | the specified digest of "abc" is ba7816bf 8f01cfea 414140de 5dae2223 b00361a3 96177a9c b410ff61 f20015ad |
| Sha256.RotationsAreSigmas | stage2_static_orig/crypto/sha256.c:26-29 | S0, S1, s0 and s1, with right rotations made of left ones as in rotate-bits.h, are the four functions of FIPS 180-4 section 4.1.2 |
| Sha256.FastChIsCh | stage2_static_orig/crypto/sha256.c:34 | the three-operation Ch is the Ch of FIPS 180-4 section 4.1.2 |
| Sha256.FastMajIsMaj | stage2_static_orig/crypto/sha256.c:35 | the four-operation Maj is the Maj of section 4.1.2 |
| Sha256.FastMixIsMix | stage2_static_orig/crypto/sha256.c:32 | the order in which blk2 adds does not matter to the schedule word |
| Sha256.FastRoundIsStep | stage2_static_orig/crypto/sha256.c:49-50 | the two register updates of R are one round of section 6.2.2 with the registers renamed |
| Sha256.WindowAdvances | stage2_static_orig/crypto/sha256.c:31-32 | overwriting one slot of the 16-word window keeps it equal to the last 16 words of the 64-word schedule, and the new word is the next of that schedule |
| Sha256.Blk | stage2_static_orig/crypto/sha256.c:31-32 | blk0 and blk2 yield schedule word i+j and advance the window |
| Sha256.R | stage2_static_orig/crypto/sha256.c:49-50 | from the registers after i+j rounds of section 6.2.2, under rotated names, to those after i+j+1 |
| Sha256.Rx8 | stage2_static_orig/crypto/sha256.c:52-60 | eight rounds bring the register names back to where they started |
| Sha256.AllRounds | stage2_static_orig/crypto/sha256.c:97-123 | the four passes over j are the 64 rounds on the 64-word schedule |
| Sha256.AddTo | stage2_static_orig/crypto/sha256.c:126-133 | the working registers are added word by word to the state |
| Sha256.Transform | stage2_static_orig/crypto/sha256.c:94-142 | for every state and block the new state is the compression of FIPS 180-4 section 6.2.2 |
| Sha256.Context.constructor | stage2_static_orig/crypto/sha256.c:12-24 | a fresh context has absorbed nothing |
| Sha256.Context.Init | stage2_static_orig/crypto/sha256.c:12-24 | any context is reset to the empty message |
| Sha256.Context.WriteByteBlock | stage2_static_orig/crypto/sha256.c:149-161 | a full buffer is hashed big-endian and counts as absorbed |
| Sha256.Context.Absorb | stage2_static_orig/crypto/sha256.c:180-187 | one byte is appended to the message, wherever the buffer stands |
| Sha256.Context.Update | stage2_static_orig/crypto/sha256.c:174-189 | the context stands for its message followed by the data, so chunking is irrelevant |
| Sha256.PaddingProgress | stage2_static_orig/crypto/sha256.c:199-205 | from every buffer position the wrap-around loop nears position 56 and stops after exactly the least number of zeros |
| Sha256.Context.PadZeros | stage2_static_orig/crypto/sha256.c:199-205 | the loop ends and has fed exactly the zeros of section 5.1.1, hashing a block on the way if need be |
| Sha256.LengthWraps | stage2_static_orig/crypto/sha256.c:195 | the shifted 64-bit counter has the eight length bytes of the true bit length modulo 2^64 |
| Sha256.Context.PutLength | stage2_static_orig/crypto/sha256.c:206-210 | the length goes in as eight big-endian bytes |
| Sha256.Context.Finish | stage2_static_orig/crypto/sha256.c:195-211 | the state is the hash of the padded message, one or two blocks more |
| Sha256.Context.WriteDigest | stage2_static_orig/crypto/sha256.c:213-219 | the eight words come out big-endian, and nothing beside the 32 bytes changes |
| Sha256.Context.Final | stage2_static_orig/crypto/sha256.c:192-221 | the output is the FIPS 180-4 digest of everything absorbed, and the context is empty again; the function it is stated with is fixed by the bit lemmas, the constants and the digest of "abc" |
| Sha256.Hash | stage2_static_orig/crypto/sha256.c:164-171 | the one-shot function computes the FIPS 180-4 digest |
| Hmac.FillKx | stage2_static_orig/crypto/hmac-sha256.c:62-64 | kx is the zero-extended key combined with the pad byte |
| Hmac.Shorten | stage2_static_orig/crypto/hmac-sha256.c:47-53 | keys above 64 bytes are replaced by their digest, others are used in place |
| Hmac.HashAfterKx | stage2_static_orig/crypto/hmac-sha256.c:71-74 | one pass hashes kx followed by the text |
| Hmac.SameKeyIffSurvives | stage2_static_orig/crypto/hmac-sha256.c:82 | both passes see the same key for every first digest if and only if the output does not overlap a key that is read again |
| Hmac.HmacOver | stage2_static_orig/crypto/hmac-sha256.c:30-95 | for all keys, messages and overlaps the output is the outer hash under the key as re-read; it is the HMAC of RFC 2104 section 2, with pads 0x36 and 0x5C, if the key survives; nothing else changes |
| Rpmb.DecodeEncode | stage2_static_orig/drivers/mmc.h:463-471 | every frame decodes to the fields it was built from |
| Rpmb.EncodeDecode | stage2_static_orig/drivers/mmc.h:463-471 | the layout covers all 512 bytes: every byte string is the encoding of what it decodes to |
| Rpmb.SetMac | stage2_static_orig/drivers/mmc.c:818 | writing the MAC bytes changes the MAC field and no other |
| Rpmb.SetNumbers | stage2_static_orig/drivers/mmc.c:680-687 | writing type, block count, address or counter changes that field and no other |
| Rpmb.SwappedStoresAreBigEndian | stage2_static_orig/drivers/mmc.c:676-678 | a little-endian store of a swapped number is its big-endian encoding |
| Rpmb.SwappedLoadsAreBigEndian | stage2_static_orig/drivers/mmc.c:466-475 | a swapped little-endian load is the big-endian number |
| Rpmb.Request.Check | stage2_static_orig/drivers/mmc.c:504-606 | a request passes with one block exactly if result and the buffers its type (1 to 4) needs are there; other types are answered with -95 |
| Rpmb.CoreRequest.PreFrame | stage2_static_orig/drivers/mmc.c:614-710 | a frame is prepared exactly for complete one-block requests, decodes to the request's fields with all others as before, and is untouched on error |
| Rpmb.CoreRequest.CalcMac | stage2_static_orig/drivers/mmc.c:805-822 | the MAC field becomes the HMAC of the final bytes 228..511, which inserting it does not disturb, and nothing else changes |
| Rpmb.CoreRequest.PostFrame | stage2_static_orig/drivers/mmc.c:428-502 | result, counter, nonce, data and MAC arrive as the frame decodes, each for the types that carry it; only the MAC of READ_DATA comes from behind the frame and can be anything |
| Rpmb.ReversedTwice | stage2_static_orig/drivers/mmc.c:751-758 | reversing twice is the identity |
| Rpmb.ByteSwap | stage2_static_orig/drivers/mmc.c:751-758 | the first sz bytes are reversed in place, the rest is kept |
| Rpmb.SwitchArgFields | stage2_static_orig/drivers/mmc.c:236-239 | the CMD6 argument has access mode, index, value and command set in the places of JESD84-B51 section 6.6.1 |
| Rpmb.RpmbSelected | stage2_static_orig/drivers/mmc.c:236-239 | selecting the RPMB partition is CMD6 with 0x03B34B01: partition 3 in byte 179 |
| Rpmb.Partition.Switch | stage2_static_orig/drivers/mmc.c:227-291 | success means that CMD6 was acknowledged and that the card has left the programming state without a switch error |
| Rpmb.Partition.Send | stage2_static_orig/drivers/mmc.c:293-347 | zero means that CMD23 for one block, as a reliable write exactly for the writing types, and CMD25 were taken, and that the frame followed if and only if its transfer did not fail |
| Rpmb.Partition.Receive | stage2_static_orig/drivers/mmc.c:293-347 | zero means that CMD23 and CMD18 were taken, and that the frame followed if and only if its transfer did not fail |
| Rpmb.PartitionOps | stage2_static_orig/drivers/mmc.c:359-426 | on success exactly the request, for writing types the result query, and the response have crossed the bus, in this order, if and only if no transfer of this call failed; every one of them crossed or is counted as lost |
| Rpmb.GetWriteCount | stage2_static_orig/drivers/mmc.c:712-749 | on success partition 3 was selected by CMD6 and an otherwise empty counter request answered, if and only if no transfer of the call failed; the counter returned is that of the frame as it then is |
| Rpmb.RpmbRead | stage2_static_orig/drivers/mmc.c:760-801 | the buffer is the reversed payload of the frame as it then is, which is the response to a read of that address if and only if no transfer of the call failed |
| Rpmb.BuildWrite | stage2_static_orig/drivers/mmc.c:844-861 | the frame decodes to type, one block, address 0, counter and reversed payload under the HMAC of its own final bytes |
| Rpmb.RpmbWrite | stage2_static_orig/drivers/mmc.c:824-882 | on success such a frame, with the counter that the card had just reported, was sent to the RPMB partition and answered, if and only if no transfer of the call failed; if no command fails it succeeds |
| Rpmb.PayloadRoundTrip | stage2_static_orig/drivers/mmc.c:751-801 | a payload written and handed back unchanged by the card reads as it was |
| Division.Align | stage2_static/libc.c:33-36 | the divisor is shifted, without overflow, to within a factor of two of the dividend |
| Division.Uidiv | stage2_static/libc.c:20-52 | for all 32-bit inputs: terminates, remainder num mod dem, quotient (num / dem) mod 2^31, zero for a zero divisor |
| Division.AeabiUidiv | stage2_static/libc.c:54-57 | exact if and only if the divisor exceeds 1 or the dividend is below 2^31 |
| Division.AeabiUidivmod | stage2_static/libc.c:59-62 | the remainder is always exact |
| Printf.Sink.Out | stage2_static/printf.c:108-139 | the sink is called with one more character and index; a buffer stores it only below maxlen |
| Printf.StoredText | stage2_static/printf.c:108-113 | calls with indices 0, 1, 2, ... leave in each cell below maxlen the last character whose 32-bit index is that cell, and touch nothing else |
| Printf.PutHash | stage2_static/printf.c:188-207 | the '#' step as written, including the digits it drops, within the 32-byte scratch buffer |
| Printf.PutSign | stage2_static/printf.c:210-223 | the sign step as written, including the digit it drops, within the scratch buffer |
| Printf.NtoaFormat | stage2_static/printf.c:173-245 | the field is output at consecutive indices from idx on, once each |
| Printf.PutDigits | stage2_static/printf.c:260-266 | the division loop leaves the digits of the value and never overruns the scratch buffer |
| Printf.NtoaLong | stage2_static/printf.c:249-269 | the whole number conversion outputs its text at consecutive indices |
| Printf.StrnlenS | stage2_static/printf.c:145-150 | the length up to the terminator or the limit |
| Printf.ScanFlags | stage2_static/printf.c:466-477 | the flag characters, in any order and number |
| Printf.ScanNumber | stage2_static/printf.c:162-169 | the decimal number modulo 2^32, and the position after it |
| Printf.ScanWidth | stage2_static/printf.c:479-494 | width from digits or an argument, negative ones setting the left flag |
| Printf.ScanPrecision | stage2_static/printf.c:496-509 | precision from digits or an argument, negative ones counting as zero |
| Printf.PutInteger | stage2_static/printf.c:549-621 | base, flags, length and sign of each integer conversion |
| Printf.PutCharField | stage2_static/printf.c:629-647 | the character in its field |
| Printf.PutStringField | stage2_static/printf.c:649-673 | the string, cut to the precision, in its field |
| Printf.PutItem | stage2_static/printf.c:455-702 | one format item outputs its text at consecutive indices and moves format and arguments on |
| Printf.Vsnprintf | stage2_static/printf.c:442-710 | every run calls its sink with indices 0, 1, 2, ... exactly once each for the text, then with the terminator; the result is the length of the text as an int, whatever the bound |
| Printf.StoredRun | stage2_static/printf.c:706 | those calls and the terminator leave the text cut to count-1 with a NUL after it, for every count >= 1 and every text below 2^32 characters, what has overwritten itself for longer ones, and nothing for count 0 |
| Printf.Snprintf | stage2_static/printf.c:736-743 | for every format, arguments and count the buffer holds exactly the cut text and its NUL, or for texts of 2^32 characters or more what was stored last, all cells beyond are unchanged, and the length of the whole text is returned as an int |
| Printf.PrintfConsole | stage2_static/printf.c:715-723 | the console receives the text without NULs, the final one included |
| PrintfDirectives.DirectiveRead | stage2_static/printf.c:455-702 | wherever a conversion specification stands in a format, every flag, the width, the precision, the length modifier and the conversion are read as spelled, stars from the next arguments, and the next item begins right behind it with the arguments it has not taken |
| PrintfDirectives.StringConversion | stage2_static/printf.c:649-673 | %s prints the string up to its first NUL, or to the precision if that is shorter, filled with spaces to the width on the side that the flag says |
| PrintfDirectives.CharConversion | stage2_static/printf.c:629-647 | %c prints the low byte of the argument, filled with spaces to the width |
| PrintfDirectives.PointerConversion | stage2_static/printf.c:675-693 | %p prints capital hexadecimal digits that denote the argument, eight of them unless the precision asks for more or the field is to the left |
| PrintfFacts.DigitsDenote | stage2_static/printf.c:260-266 | the digits of a value parse back to it in any base, without a leading zero |
| PrintfFacts.DigitsFit | stage2_static/printf.c:260-266 | a value below 2^k has at most k digits in every base |
| PrintfFacts.UnsignedField | stage2_static/printf.c:173-269 | without '#' and sign the digits denote the value; digit count, precision, width and flags give the length in closed form, zero padding stopping at 32 |
| PrintfFacts.UnsignedConversion | stage2_static/printf.c:555-617 | %u %x %X %o %b without '#' show the argument in base 10, 16, 16, 8 and 2, modulo 2^8 for hh and 2^16 for h, with capital letters exactly for %X, and spaces only on the side that the flags say, under all other flags, widths and precisions |
| PrintfFacts.HashedConversion | stage2_static/printf.c:188-207 | with '#' and neither width nor precision, a value other than zero is printed behind 0x, 0X, 0 or 0b if and only if it is not a binary number of more than 30 digits; zero has no prefix |
| PrintfFacts.SignedField | stage2_static/printf.c:210-223 | the scratch buffer shows value and sign if and only if the sign does not collide with digits that fill width or buffer |
| PrintfFacts.SignedConversion | stage2_static/printf.c:549-621 | %d and %i print the sign and all digits of the argument, as an unsigned char for hh, a 16-bit number for h and a 32-bit number otherwise, with nothing but spaces around them, if and only if no sign is asked for or it does not collide |
| PrintfFacts.SignDropsDigit | stage2_static/printf.c:210-212 | "%2d" prints -12 as "-2" |
| Registers.Uffs | stage2_static_orig/drivers/mt_sd.h:1328-1355 | zero for zero, else one more than the position of the lowest set bit |
| Registers.Register.SetField | stage2_static_orig/drivers/mt_sd.h:1377-1383 | the field is cleared and the value placed at its lowest bit |
| Registers.Register.GetField | stage2_static_orig/drivers/mt_sd.h:1384-1388 | the field is read from its lowest bit on |
| Registers.SetsExactlyIffFits | stage2_static_orig/drivers/mt_sd.h:1377-1388 | a field write reads back and leaves all other bits alone, for every register content, if and only if the value fits the field |
| Clock.SourcesInRange | stage2_static_orig/drivers/mmc.c:1049-1056 | for every source clock of the tables and every clamped hz the rounding sum does not wrap and the divider fits 12 bits |
| Clock.Divide | stage2_static_orig/drivers/mmc.c:1133-1134 | unless the rounding sum wraps, the divider is the least with src/(4*div) <= hz, the clock does not exceed hz, and 12 bits suffice if and only if src <= 4095*4*hz; if it wraps, both are zero |
| Clock.MaxSourceIsSharp | stage2_static_orig/drivers/mmc.c:1133 | one hertz above the bound the sum wraps and the divider becomes zero |
| Clock.WriteClock | stage2_static_orig/drivers/mmc.c:1140-1142 | only bits 8..22 of MSDC_CFG change, and mode and divider read back |
| Clock.Host.ConfigClock | stage2_static_orig/drivers/mmc.c:1105-1142 | for every requested hz and every source clock the bus clock is at most the clamped hz, with the mode, divider and register content of each case |
| Pio.ReadSome | stage2_static_orig/drivers/sd.c:95-111 | bytes copied and bytes to come are conserved; no underfilled FIFO is read |
| Pio.PioRead | stage2_static_orig/drivers/sd.c:48-134 | under every fill schedule the bytes copied are the next of the stream in order, all of them on success; copied plus left is the size; the result is -110 or -5 as the first look at the interrupts shows a timeout or a checksum error, -110 if a later one shows either, else 0; without errors a complete block is always copied |
| Pio.WriteSome | stage2_static_orig/drivers/sd.c:182-200 | bytes are pushed in order and never more than the FIFO holds |
| Pio.PioWrite | stage2_static_orig/drivers/sd.c:140-221 | under every drain schedule success has pushed exactly the buffer in order, failure nothing; it fails, with -5, exactly if the look at the interrupts shows a timeout or a checksum error |
| Emmc.SendCmd | stage2_static/mt8113_emmc.c:143-149 | at most one command reaches the card; success means that it was taken; the accesses are the command and looks for its response, exactly up to the first that shows it or 100000 of them |
| Emmc.WaitCardReady | stage2_static/mt8113_emmc.c:151-160 | polling disturbs nothing, and success means that the card is in the transfer state; the commands are up to 1000 times CMD13, and exactly 1000 before it gives up; candid hardware that is done within the poll budget is never missed |
| Emmc.DrainRx | stage2_static/mt8113_emmc.c:130-141 | the receive FIFO is empty afterwards, whatever was left in it |
| Emmc.StaleReadsAnything | stage2_static/mt8113_emmc.c:319-320 | the first read after a switch or a write may deliver anything, so one attempt would not do |
| Emmc.CollectWords | stage2_static/mt8113_emmc.c:337-348 | words read, in the FIFO and still with the card always make up the same sequence; both nested loops end; a word is taken only when four bytes are there; with fewer than 128 words it stops exactly when a look shows completion, or after 100000 looks |
| Emmc.AwaitData | stage2_static/mt8113_emmc.c:330-335 | it looks until data bits show or bytes are in the FIFO, at most 100000 times, and takes nothing |
| Emmc.StartRead | stage2_static/mt8113_emmc.c:322-328 | a read command that was taken has its block on the way, refused or lost commands disturb nothing; a prompt card is never missed |
| Emmc.FinishRead | stage2_static/mt8113_emmc.c:331-364 | success leaves exactly the block that the card sent, complete and not damaged, which rests on the test of INT_DATCRCERR and INT_DATTMO; a prompt card's block is never given up |
| Emmc.ReadAttempt | stage2_static/mt8113_emmc.c:322-364 | success leaves exactly the words the card sent for this command, which are the wanted block unless the card was stale, never a damaged one, and a card that is not stale |
| Emmc.PushWords | stage2_static/mt8113_emmc.c:413-423 | the words of the buffer are pushed in order and are with the card or in the FIFO; none is lost if and only if no look shows room for part of a word, which whole words leaving never bring about |
| Emmc.WaitTransfer | stage2_static/mt8113_emmc.c:433-450 | it looks exactly until completion or a data error shows, a million times at most; success exactly if it was completion and not at the very last look, or if nothing has shown |
| Emmc.StartWrite | stage2_static/mt8113_emmc.c:382-408 | CMD24 for one block is issued; success exactly if its response shows and has none of the bits 0xFDF90008, and then the card waits for the words of an existing sector |
| Emmc.DeliverBlock | stage2_static/mt8113_emmc.c:413-459 | from acceptance on the card can do nothing but put exactly these words in exactly this sector, or refuse them; success means that it has put them there if and only if it did not refuse the block, and that no look of the wait for the transfer has shown an error first |
| Emmc.IdentificationAgrees | stage2_static/mt8113_emmc.c:226-254 | CMD0 to CMD3 never make an addressable card disagree with the cached partition |
| Emmc.SwitchArgument | stage2_static/mt8113_emmc.c:287-295 | the CMD6 argument writes PARTITION_CONFIG and selects the partition |
| Emmc.Driver.constructor | stage2_static/mt8113_emmc.c:112 | before the first emmc_init the cached partition cannot be wrong, as no card can be addressed |
| Emmc.Driver.SelectCard | stage2_static/mt8113_emmc.c:257-274 | CMD7 and, once it is answered, status polls are issued; success means that card and cache agree on the user area; agreement is lost if and only if the card took CMD7, the call failed and the cache did not say user area, and never on candid hardware |
| Emmc.Driver.Init | stage2_static/mt8113_emmc.c:162-282 | the same of the whole of emmc_init, which changes no sector of a card at rest; its commands are CMD0, CMD1 with 0x40FF8080 until the response has bit 31, a hundred times at most, then CMD2, CMD3, CMD7 and status polls as far as each is answered; from any state it succeeds with a prompt controller |
| Emmc.Driver.SwitchPartition | stage2_static/mt8113_emmc.c:284-308 | agreement is lost if and only if the call failed and the card moved, or it succeeded and the card refused the switch; the commands are CMD6 with 0x03B34800 plus 0x100 times the partition and status polls; unknown and cached partitions need no command |
| Emmc.Driver.ReadSector | stage2_static/mt8113_emmc.c:310-370 | success returns the 128 words of the sector in the card's partition, nothing stale or damaged, and that partition is the requested one if and only if a switch was made and not refused, or none was made and the cache was right; no sector changes; with a prompt controller every existing sector is read |
| Emmc.Driver.WriteSector | stage2_static/mt8113_emmc.c:372-463 | success has put exactly the buffer into that sector of the card's partition if and only if the block was not refused, unless the FIFO was overfilled; in every case at most that sector changes, now or later, and it is the addressed one unless cache and card disagree before or after; with a prompt controller every existing sector is written |
| Emmc.Driver.ReadExtCsd | stage2_static/mt8113_emmc.c:465-528 | success returns the register, not a damaged copy; sectors are kept; agreement survives on candid hardware, and on any hardware if the cached partition is the user area |
| Emmc.LostBehindTheBack | stage2_static/mt8113_emmc.c:226-274 | from every card in the transfer state that agrees with the cache, an initialization that goes unseen leaves the cache right if and only if it says user area |
| Emmc.RefusedUnseen | stage2_static/mt8113_emmc.c:296-307 | from every card in the transfer state, what the driver sees of a switch means that the card is in the partition asked for if and only if it was there before |
| Emmc.MisdirectedWrite | stage2_static/mt8113_emmc.c:296-411 | after a refused switch, CMD24 with a clean response targets the sector of that number in the partition that the card has not left |
| Emmc.RunDriver | stage2_static/mt8113_emmc.c:112-528 | over any calls, failing ones included, the cached partition is always right on candid hardware that refuses no switch; in general a call makes it wrong if and only if the driver has not cached where the card moved, or has cached where it refused to move |
| TxFifo.NeverOverfull | stage2_static/mt8113_emmc.c:416-423 | for every drain schedule the FIFO stays within 128 bytes until the 128 words are pushed if and only if no look sees room for part of a word only |
| TxFifo.WordDrainsFit | stage2_static/mt8113_emmc.c:416-423 | a card that takes whole words keeps the FIFO within its capacity |
| TxFifo.ByteDrainOverfills | stage2_static/mt8113_emmc.c:419-421 | 32 pushes, one byte taken and one more push, the 33rd, make 131 bytes |
| Bytes.ByteOrder | stage2_static/tools.c:81-90 | the most significant byte is first on the wire, the least significant one first in memory |
| Bytes.LittleEndianRoundTrip | mt8113_reflash.py:575 | a word read from its little-endian bytes is the word |
| Bytes.SwapStoresWireOrder | stage2_static/tools.c:81-90 | a swapped word lies in memory in wire order |
| Bytes.WordsOfBytes | stage2_static/stage2.c:99 | a buffer of words viewed as bytes and back is the same |
| Bytes.BytesOfWords | stage2_static/stage2.c:115 | 512 bytes viewed as words and back are the same |
| Protocol.WireBytes | mt8113_reflash.py:153-196 | a command is F0 0D D0 0D, its code (1000 to 1003 or 3001 in hexadecimal) and, for reads and writes, region and sector in big-endian order; the other codes are invalid or not modelled |
| Protocol.Acknowledgements | stage2_static/stage2.c:91-119 | an initialization is acknowledged by four bytes D1, a write by four bytes D0 |
| Protocol.ParseWire | stage2_static/stage2.c:80-122 | the device reads every command as the one sent, whatever follows on the wire |
| Protocol.WireParse | stage2_static/stage2.c:80-122 | the bytes the device takes are exactly those of the command it makes of them |
| Stage2.Device.RecvDword | stage2_static/tools.c:86-90 | four bytes are taken and read big-endian |
| Stage2.Device.SendDword | stage2_static/tools.c:81-84 | a word is sent big-endian |
| Stage2.Device.RecvData | stage2_static/stage2.c:15-19 | the bytes land in memory in wire order, rounded up to whole words on 32-bit arithmetic |
| Stage2.Device.PutSector | stage2_static/stage2.c:103-105 | the two chunks are the 512 bytes of the buffer in order |
| Stage2.Device.Boot | stage2_static/stage2.c:71-75 | the card is initialized and the device announces itself with B1 B2 B3 B4; the driver then knows the partition on candid hardware, and on other hardware it loses it if and only if a CMD7 was taken unseen; with a prompt controller the device is then fit to serve every command |
| Stage2.Device.ServeRead | stage2_static/stage2.c:94-108 | the reply is the sector, or nothing if the read failed, and the flash is as before |
| Stage2.Device.ServeWrite | stage2_static/stage2.c:109-122 | the sector holds the payload and is acknowledged, or nothing is sent; at most that sector of the card's partition changes |
| Stage2.Device.ServeExtCsd | stage2_static/stage2.c:123-139 | 512 bytes are always sent, and they are the register if it could be read |
| Stage2.Device.ServeOne | stage2_static/stage2.c:77-212 | one turn of the loop takes exactly one command's bytes, serves it as specified and sends its whole reply or none; whatever the driver knows, at most one sector of the card's partition changes; a fit device never fails to reply; anything but the magic number ends the loop with nothing else done |
| Stage2.U32ToStr | stage2_static/stage2.c:48-59 | eight hexadecimal digits that denote the value, and a NUL |
| Host.MT8113USB.UsbRead | mt8113_reflash.py:142-151 | chunks of any size, empty ones included, add up to exactly the bytes asked for, in order, or the call raises |
| Host.MT8113USB.SendCommand | mt8113_reflash.py:153-158 | the words on the wire are those before the first argument that does not fit 32 bits, and it raises exactly if there is one |
| Host.CutShortMisreads | mt8113_reflash.py:153-158 | after a read or write command cut short before either argument, the device takes the magic number and the code of the next command, whatever it is, for the arguments that are missing |
| Host.MT8113USB.ReadSector | mt8113_reflash.py:163-172 | a normal return leaves host and device in step and gives the bytes of that sector, if the driver knows the partition before and after or no switch can be refused; the flash is never changed |
| Host.MT8113USB.WriteSector | mt8113_reflash.py:174-188 | a normal return is true and means that the sector holds the data, if the driver knows the partition before and after or no switch can be refused; also when it raises, only that sector can change, or the one of that number in the card's partition if the driver is wrong about it |
| Host.MT8113USB.GetExtCsd | mt8113_reflash.py:190-196 | 512 bytes, host and device in step, flash unchanged; the driver still knows the partition on candid hardware, or if it believed in the user area |
| Host.MT8113USB.KickWatchdog | mt8113_reflash.py:160-161 | the command is sent and taken by the device at any later time; nothing else changes |
| Host.Run | mt8113_reflash.py:153-196 | any sequence of normally returning calls keeps host and device in step and acts like a plain map, on candid and obliging hardware to the end, otherwise up to the first call that may make the driver wrong about the partition, which can be told from the calls; if nothing fails and all sectors exist, every call returns |
| Host.ReplayIsLastWrite | mt8113_reflash.py:163-188 | after any calls a sector holds what the last write to it wrote, or what it held before |
| Host.ReadsBack | mt8113_reflash.py:163-188 | what was written to a sector is read back through any calls that do not write it again |
| Lockstep.StreamStep | stage2_static/stage2.c:80-115 | in every interleaving the bytes taken, on the wire and unsent are the commands not served yet, and the device is inside the first |
| Lockstep.ReplyStep | mt8113_reflash.py:142-151 | in every interleaving what is on its way back is the reply to the present call and nothing else |
| Lockstep.HistoryStep | stage2_static/stage2.c:77-212 | every call receives the whole of its own reply |
| Lockstep.RunInv | stage2_static/stage2.c:77-212 | in every state of every run these hold, and each command served was a turn of a device |
| Lockstep.RepliedAtRest | mt8113_reflash.py:142-196 | after a call with a reply both queues are empty and the device is at its loop head |
| Lockstep.OnlyUnrepliedPending | mt8113_reflash.py:160-161 | between calls only commands without a reply can be pending |
| Lockstep.CallRuns | stage2_static/stage2.c:77-139 | from between calls a call with a reply can run to its return with every turn that the device may take |
| Lockstep.RunsAhead | mt8113_reflash.py:160-161 | from every state at rest a call without a reply can return with all its bytes still on the wire |
| Lockstep.RestIffReplied | mt8113_reflash.py:142-196 | a call made at rest ends at rest on every schedule if and only if it has a reply |
| Lockstep.RefinesPlainMap | mt8113_reflash.py:153-188 | under every interleaving, between calls, every read up to and after which the driver knew the partition has returned what the plain map of the calls before it holds, and the flash is the plain map of all calls if it has known it throughout |
| Lockstep.KnownUnlessLost | stage2_static/mt8113_emmc.c:465-528 | under every interleaving the driver knows the partition throughout on candid and obliging hardware, and on any hardware if no call may make it wrong, by the condition of the host |
| Simulation.TakeTurn | stage2_static/stage2.c:77-212 | in every reachable state in which a command has been taken, a turn of the command loop is a Serve step of the state machine |
| Simulation.Session | mt8113_reflash.py:153-196 | from empty queues on, the calls of any session that return are a run of the state machine with the commands of these calls, in which each has received what the call has returned |
| Simulation.Perform | mt8113_reflash.py:153-196 | each call that returns is a path of the state machine from its beginning to its return |
| Simulation.BytesMove | stage2_static/stage2.c:99-105 | the other device steps leave the device where the state machine has it |
| Simulation.SamePlainMap | mt8113_reflash.py:153-188 | the map and the condition of the two refinements are the same |
| Lockstep.StuckOnlyOnFailure | stage2_static/stage2.c:99-118 | a call that waits with no step left waits for a read or write that failed |
| Flash.HeldBytes | mt8113_reflash.py:239-243 | sectors that hold a byte string read back as that string |
| Flash.ReadSectors | mt8113_reflash.py:240-243 | the file is the bytes of the range, one sector after the other |
| Flash.WriteSectors | mt8113_reflash.py:286-302 | the range holds the padded file; outside it nothing has changed or will, also when the loop raises |
| Flash.ReadFlash | mt8113_reflash.py:216-260 | a normal return is the bytes of a range of partition 0, 1 or 2, for userdata, boot0 and boot1; also when it raises, every command sent addressed a sector below the end of the region |
| Flash.WriteFlash | mt8113_reflash.py:263-318 | the addressed sectors of partition 0, 1 or 2, for userdata, boot0 and boot1, equal the padded file and all others are unchanged; a range past the region is refused before anything is sent, and no sector at or past its end is ever addressed |
| Flash.WriteThenRead | mt8113_reflash.py:216-318 | reading the range after writing it returns the file zero-padded to a multiple of 512 |
| Flash.XorBit | mt8113_reflash.py:573 | the operator of the pattern adds the bits of its operands modulo 2, place by place |
| Flash.GenerateTestSector | mt8113_reflash.py:568-576 | the 128 little-endian words 0x00C0FFEE ^ (128 * sector + i), or an exception exactly if an index exceeds 32 bits |
| Flash.PatternInjective | mt8113_reflash.py:573 | the pattern tells every word of the test from every other |
| Flash.PatternFits | mt8113_reflash.py:573-575 | a pattern word fits 32 bits exactly if its index does |
| Flash.WritePattern | mt8113_reflash.py:620-626 | every sector of the range holds its own pattern |
| Flash.Verify | mt8113_reflash.py:632-647 | no error is reported if and only if the range holds the pattern |
| Flash.Restore | mt8113_reflash.py:653-657 | writing back what was read restores the flash as it was then |
| Flash.RoundtripTest | mt8113_reflash.py:579-673 | a test of partition 0, 1 or 2, for userdata, boot0 and boot1, that returns has left the flash as it was and reports success; also otherwise only the range can change; if nothing fails and the sectors exist, it does report success |
| Flash.MainRead | mt8113_reflash.py:767-774 | the read command, EXT_CSD dump included: a normal return is the bytes of a range of the region's partition, below the size found; if nothing fails and the sectors exist, it returns |
| Flash.MainWrite | mt8113_reflash.py:776-783 | the write command, EXT_CSD dump included: the range of the region's partition holds the padded file, and nothing outside it changes, also when it raises; if nothing fails and the sectors exist, it returns |
| Flash.MainRoundtripTest | mt8113_reflash.py:785-792 | the test command, EXT_CSD dump included: a normal return leaves the flash as it was and reports success; if nothing fails and the sectors exist, it does |
| Gpt.HeaderLayout | gpt_parser.py:30-57 | a sector of 512 bytes or more is a header exactly if it begins with "EFI PART", and its first 92 bytes are the fields read from it, one after the other |
| Gpt.EntryLayout | gpt_parser.py:87-105 | 128 bytes are a used entry exactly if the type is not all zeros, and they are the fields read from it, one after the other |
| Gpt.UsedExactly | gpt_parser.py:149-161 | the partitions listed are exactly the entries with a non-zero type, in index order |
| Gpt.ParseGpt | gpt_parser.py:137-166 | the used ones among the entries that lie within the data; raises exactly for a bad header or entries below 128 bytes |
| Gpt.EnoughSectors | mt8113_reflash.py:350-351 | for every entry size from 1 to 512 the sectors fetched hold all entries, so the parser never stops early, and they are the fewest that do with whole entries in each |
| Gpt.ReadGpt | mt8113_reflash.py:321-383 | the table of the flash, or none exactly if sector 1 is not a header; other entry sizes raise |
| Gpt.FindPartition | mt8113_reflash.py:386-404 | the first partition of that name, or none if there is none |
| Gpt.ReadPartition | mt8113_reflash.py:407-465 | the bytes of the sectors first_lba to last_lba, 512 * (last_lba - first_lba + 1) of them, of the first partition so labelled in the flash |
| Gpt.WritePartition | mt8113_reflash.py:468-565 | of all partitions only sectors first_lba to last_lba of the user area can change, now or later, whether it returns or raises; a file of more than 512 * (last_lba - first_lba + 1) bytes raises; a smaller one that is not confirmed writes nothing; a written partition begins with the padded file |
| Gpt.OtherPartitionsIntact | mt8113_reflash.py:533-549 | every partition whose sectors all lie before or behind the one written reads as before |
| Gpt.DisjointIntact | mt8113_reflash.py:533-549 | every disjoint range of sectors reads as before |
| Gpt.PartitionContents | mt8113_reflash.py:468-565 | the partition then reads as the padded file followed by what its remaining sectors held |
| Gpt.TableSurvives | mt8113_reflash.py:468-565 | the table is as before if the sectors written contain no part of it |

## Left out

- USB enumeration, PyUSB, argument parsing, progress display, file handles and prompts: files are byte sequences, the answer to a prompt is a parameter.
- Unbounded hardware spins (`msdc_wait_cmd_ready`, `msdc_clear_fifo`, `sdc_is_busy`) are taken to end; nothing is claimed about how long a call takes, and elapsed-time arithmetic is not modelled.
- Pad, clock and patch registers, the controller reset loops, SDC_BLK_NUM, interrupt acknowledgements and debug output: no functional meaning without the silicon manual.
- Inline assembly, reboot, raw memory commands (0x3000, 0x4000, 0x4002, 0x5000), the self-test 0x7000 and the BROM scan: foreign addresses and code. `recv_data` is modelled on its own.
- Bytes of the transmit FIFO: the eMMC model counts them, but a word that is pushed without room is lost as a whole. What an overfull FIFO does is not known.
- EXT_CSD fields, GUID formatting, UTF-16 names and checksums: easy members. Names are compared through a function that stands for decoding and lower-casing.
- printf formats that end inside a '%' item, and missing or mismatched arguments: what follows the format reads as its terminator, missing arguments as zero or the empty string. Floating point and long long are compiled out of the source.
- Multi-block RPMB transfers: the callers use one block.
- The result code of an RPMB response is handed on but, as in the source, not examined.
- What the card makes of the operating conditions in CMD1 and of the relative address in CMD3, CMD7 and CMD13: it takes any, as the only card on the bus.
- The command words of `msdc_command_start` and the rest of the original payload's driver: the storage stack is modelled on the newer driver.
- Calls made after one that raised: the tool ends then (mt8113_reflash.py:797-799), and host and device may be out of step.
