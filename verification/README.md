# ROM delivery and control software of an FPGA NES: a verified model

The repository puts a Nintendo Entertainment System on an FPGA. A Python script turns an NES file into
a C header. The Nios II program compiled with that header stores the two ROM images, word by word, into
a bus peripheral that writes the console's memories, and then polls USB and drives LEDs, hex digits and
the two controller ports. This project models that path and proves, among other things:

* **End to end.** For every complete NES file and any bus schedule whose stores hold their data for a
  cycle and meet an edge of the memory clock, the CPU reads the file's PRG bytes in 0x8000..0xFFFF, CHR
  memory holds the CHR bytes, the modes are set, and cells no store reaches are kept. On the generated
  bus the edges come by themselves, at every phase of the board's memory clock. This joins a
  printer/reader round trip over unbounded text, packing into 32-bit words, a clock-level hardware
  refinement and a last-writer argument over wrapping addresses (`EndToEnd`).
* **Exactly when the header is usable.** The emitted text reads back to the file's payload if and only
  if the file holds every byte asked for and, in strict C, has a bank of each kind (`RoundTrip`).
* **Shared displays.** After every interleaving of the LED and display routines, the displays read as
  the last values given to them, with exactly described exceptions: -128, and direct use of a
  display's own LEDs (`Displays`).
* **The USB loop.** In every run, reports minus re-initialisations equals the running flag, the device
  class is read only after a report, at most one error is announced per outage, and ports, displays and
  LEDs are what the last keyboard and mouse reports made them (`UsbLoop`).
* **Keyboard to game.** On every trace of the CPU bus, the game's k-th read of a controller since its
  strobe is 1 exactly when the keyboard report loaded last holds a key of button k, from any register
  state and with anything but another strobe in between (`Keypad`). In every run of the loop the ports
  carry the last report (`UsbLoop`).

| file | models |
|---|---|
| `NesConvert.dfy` | `nesconvert.py`: file cursor, output file, the converter and the text of every file |
| `CReader.dfy` | a reference reader for the emitted subset of C (ISO/IEC 9899:2011, sections 6.3.1.3, 6.4.4.1, 6.7.6.2, 6.7.9), strict or with GNU C's leniency |
| `RoundTrip.dfy` | the text read back |
| `RomProgrammer.dfy` | `rom_programmer.h` and the word fields of `ROM_PRGMR.sv` |
| `RomDevice.dfy` | `ROM_PRGMR.sv`, `PRG_ROM.sv`, `CHR_ROM.sv` and the bus cycle, clock by clock |
| `Programming.dfy`, `Ordering.dfy` | the programming loops of `main.c` and their effect on the device |
| `EndToEnd.dfy` | all of the above composed |
| `Displays.dfy` | the LED and hex registers of `usb_host.h` |
| `Keypad.dfy` | the key fold of `main.c`, the serial pad of `CONTROLLER.sv` and its two ports in `NES_ARCHITECTURE.sv` |
| `UsbLoop.dfy` | the polling loop of `main.c` and the device scan of `usb_host.h` |
| `RegisterCodec.dfy` | the register transfers of `sgtl5000.c` |
| `Basics.dfy` | bytes, C integer conversions, Option |

## Where the code and its own words differ

The model follows the code.

* The converter prints an array for every file. For one without CHR banks that ends with its PRG data
  it prints `{0x}`, which is not C (`RoundTrip.NoChrBankRejected`). Checked-in headers such as
  `src/software/NES_NIOSII/test_roms/allpads.h` have that replaced by `{}`.
* `main.c:67` says that mirroring is not done; lines 68-70 do it for 16 KB images.
* `ROM_PRGMR.sv:19` says that the top 8 bits are ignored; lines 37-45 use five of them.
* A mode word is also an ordinary write: it clears PRG cell zero. `PRG_ROM.sv` decodes 15 address bits,
  so that is the cell of 0x8000, and the PRG image overwrites it.
* The mirroring bit of the NES header is never read; the mode is always vertical (`main.c:62`).
* LED 9 stands for "running", but stays dark when running resumes after an error
  (`UsbLoop.RunningLedDarkAfterError`).
* `printSignedHex1` keeps its digits in 32 bits where `printSignedHex0` uses 16, so -128 on the second
  display leaves four stray bits in the first (`Displays.DisturbsExactly`).

## Model

| member | source | states |
|---|---|---|
| `EndToEnd.FileDelivered` | src/software/NES_NIOSII/main.c:60-80 | after the file is converted, read back, programmed and carried over any sound bus schedule, every PRG and CHR cell holds the byte of its last writer or, where nothing writes it, what it held before (PRG cell 0: zero, from the mode word); so the CPU reads byte 16 + (a - 0x8000) mod size at every a from 0x8000 with one or two banks; modes are vertical and CHR ROM |
| `EndToEnd.PartsDelivered` | src/software/NES_NIOSII/main.c:60-80 | for a file made of 4E 45 53, a byte, the two bank counts p and c, ten bytes, 16384 p PRG bytes, 8192 c CHR bytes and anything more: after delivery a 16 KB PRG image stands at 0x8000 and again at 0xC000, of any other the last bytes that fit stand from 0x8000 on, the CHR bytes stand in CHR memory likewise, cells no byte reaches are kept, and with one or two banks the CPU reads PRG byte (a - 0x8000) mod size at a |
| `EndToEnd.PartsDeliveredOnBoard` | src/main_clkgen.v:106-111 | the same on the board, for every phase of the memory clock and any gaps between stores |
| `EndToEnd.UsableExactly` | nesconvert.py:19-54 | which files the program can be built with, in numbers: the magic, and at least 16 + 16384 p + 8192 c bytes with p and c positive in strict C; GNU C also takes p or c zero with one byte in place of that image |
| `EndToEnd.FileDeliveredByInterconnect` | src/toplevel_soc/synthesis/submodules/toplevel_soc_mm_interconnect_0.v:1653-1656 | the same for every bus trace with the generated timing and any idle cycles between stores, under any one global memory clock with an edge in every eleven bus cycles |
| `EndToEnd.FileDeliveredOnBoard` | src/main_clkgen.v:106-111 | for every complete file, every phase of the memory clock at 43/100 of the bus clock and any gaps between stores, there is such a trace and it delivers the file |
| `EndToEnd.DeliveredDevice` | nesconvert.py:19-54 | the whole device state after delivery is the one that the two slices of the file program |
| `EndToEnd.PrgIndexWrites` | src/software/NES_NIOSII/main.c:64-72 | the last iteration to write each cell, o cells above 0x8000 going round the memory, for images of every size: o mod 16384 in both halves for 16 KB, else the largest index below size congruent to o, none where nothing writes |
| `EndToEnd.ChrIndexWrites` | src/CHR_ROM.sv:55-56 | the last iteration to write a CHR cell, for a memory that truncates its index and for one that ignores it |
| `EndToEnd.BytePathLossless` | src/software/NES_NIOSII/main.c:66-79 | printed hex digits, read as a constant, narrowed to a possibly negative char, widened to alt_u8 and packed, decode to the original byte |
| `NesConvert.Convert` | nesconvert.py:19-54 | the program appends exactly `Emitted(file)`: nothing unless the first three bytes are 4E 45 53, otherwise two sizes and two arrays of one token per byte, short and empty files included |
| `NesConvert.WriteBytes` | nesconvert.py:37-42 | the loop and the last write print the joined tokens and consume max(n, 1) bytes, clipped at the end of the file |
| `NesConvert.InFile.Read` | nesconvert.py:19-33 | a read returns the next bytes, clipped, and moves the cursor past them |
| `NesConvert.ArrayBodyLayout` | nesconvert.py:46-54 | n complete bytes take 6n - 2 characters, and byte k's two-digit token stands at 6k |
| `RoundTrip.RoundTripExactly` | nesconvert.py:30-54 | the text reads back to both sizes and both payloads if and only if the file is complete and, in strict C, has banks of both kinds; otherwise it is rejected |
| `RoundTrip.LexEmitted` | nesconvert.py:30-54 | the C tokens of the text of every file with the magic, bare `0x` words included |
| `RoundTrip.TokenText` | nesconvert.py:37-42 | token k of an array is "0x" and the two hex digits of the byte at its offset, or a bare "0x" exactly when that offset is at or past the end of the file, for every file |
| `RoundTrip.PartsPrinted` | nesconvert.py:30-54 | the whole text of a file made of its parts, character by character |
| `RoundTrip.PartsReadBack` | nesconvert.py:30-54 | that text defines prg_rom_size, chr_rom_size, prg_rom_data and chr_rom_data with the lengths and the bytes of the two images, 128 and above taken minus 256 |
| `RoundTrip.ByteConstant` | nesconvert.py:38-42 | the token at an offset reads as the byte there, or as no constant exactly at or past the end of the file |
| `RoundTrip.DecimalRoundTrip` | nesconvert.py:30-31 | reading str(n) in base ten gives n |
| `RoundTrip.DecimalDigits` | nesconvert.py:30-31 | str(n) is digits without a leading zero |
| `RoundTrip.TextDeterminesPayload` | nesconvert.py:30-54 | a file whose text is that of a complete file is itself complete and carries the same PRG and CHR bytes |
| `RoundTrip.NoChrBankRejected` | nesconvert.py:46-54 | a file without CHR banks that ends with its PRG data is printed as a header that neither dialect accepts |
| `RomProgrammer.EncodeDecodes` | src/software/NES_NIOSII/rom_programmer.h:13-33 | decoding each kind of word gives back region, address, data and modes; data words touch no mode |
| `RomProgrammer.DecodeBits` | src/ROM_PRGMR.sv:37-54 | for every word, given as its top byte, data byte and address: bit 7 of the top byte selects PRG, bits 6 and 4 latch the modes from bits 5 and 3 |
| `RomProgrammer.EncodeInjective` | src/software/NES_NIOSII/rom_programmer.h:13-33 | PRG, CHR and mode words are pairwise disjoint and determine their fields |
| `RomProgrammer.Programmer.WritePrgRom` | src/software/NES_NIOSII/rom_programmer.h:13-15 | one store of 0x80000000, the data at bit 16 and the address, which decodes to a PRG write of the data at the address and touches no mode |
| `RomProgrammer.Programmer.WriteChrRom` | src/software/NES_NIOSII/rom_programmer.h:17-19 | one store of the data at bit 16 and the address with nothing above, which decodes to a CHR write of the data at the address and touches no mode |
| `RomProgrammer.Programmer.WriteHeaderInfo` | src/software/NES_NIOSII/rom_programmer.h:21-33 | one store of 0xD0000000 with bit 29 for vertical and bit 27 for CHR RAM, which decodes to both mode flags and a write of zero to PRG address zero |
| `RomDevice.StoreProgress` | src/ROM_PRGMR.sv:35-54 | the exact registers and memories after each cycle of a store, whichever cycles hold a memory clock edge |
| `RomDevice.StoreRefines` | src/ROM_PRGMR.sv:35-54 | a store with a hold cycle and a caught edge does exactly one write and one mode update |
| `RomDevice.BusRefines` | src/PRG_ROM.sv:57-59 | any schedule of stores and idle cycles equals the stores carried out in order |
| `RomDevice.HoldIsNeeded` | src/game_rom_programmer_hw.tcl:73 | without hold cycles the next word on the bus is written into PRG memory, wherever it was meant to go |
| `RomDevice.InterconnectCatches` | src/toplevel_soc/synthesis/submodules/altera_merlin_slave_translator.sv:323-327 | setup 5, write 11, hold 5: one store is not missed by a clock with an edge in every eleven cycles |
| `RomDevice.InterconnectCycles` | src/toplevel_soc/synthesis/submodules/toplevel_soc_mm_interconnect_0.v:1653-1656 | a store on the bus is 21 cycles of chip select with the write line up in cycles 5 to 15 |
| `RomDevice.InterconnectSound` | src/toplevel_soc/synthesis/submodules/altera_merlin_slave_translator.sv:323-327 | under one global clock with an edge in every eleven cycles, no store of a whole trace is missed, wherever the stores start |
| `RomDevice.BoardClockKeepsPace` | src/main_clkgen.v:106-111 | a clock at 43/100 of the bus clock has an edge in every eleven bus cycles at every phase |
| `RomDevice.BoardClockRate` | src/main_clkgen.v:106-111 | that clock has exactly 43 edges in any 100 bus cycles |
| `RomDevice.ScheduleExists` | src/toplevel_soc/synthesis/submodules/altera_merlin_slave_translator.sv:323-327 | any stores with any gaps between them have a trace under any clock |
| `RomDevice.IdleQuiets` | src/ROM_PRGMR.sv:47-50 | one cycle without chip select drops both write enables |
| `Programming.ProgramRoms` | src/software/NES_NIOSII/main.c:62-80 | the stores issued are the mode word, the PRG words with 16 KB mirroring, and the CHR words, in order |
| `Programming.StreamPrgWords` | src/software/NES_NIOSII/main.c:62-72 | store by store: 0xF0000000, then for PRG byte i the words for 0xC000 + i and 0x8000 + i in this order for 16 KB, and only the latter for any other size |
| `Programming.StreamChrWords` | src/software/NES_NIOSII/main.c:75-80 | then the word for CHR address i with CHR byte i |
| `Programming.PrgWriter` | src/software/NES_NIOSII/main.c:64-72 | the last of the first n iterations that writes a cell, or none when no iteration does |
| `Programming.ChrWriter` | src/software/NES_NIOSII/main.c:75-80 | the same for the CHR loop and a CHR cell |
| `Programming.PrgLoopEffect` | src/software/NES_NIOSII/main.c:64-72 | last writer wins after every prefix of the PRG loop, for every image size; CHR and modes are untouched |
| `Programming.ChrLoopEffect` | src/software/NES_NIOSII/main.c:75-80 | the same for CHR |
| `Programming.StreamEffect` | src/software/NES_NIOSII/main.c:62-80 | the exact final device for any two images and any starting device |
| `Programming.ProgrammingTwice` | src/software/NES_NIOSII/main.c:62-80 | running the whole stream twice leaves the same device, even when the images wrap |
| `Programming.MirrorInvariant` | src/software/NES_NIOSII/main.c:64-72 | after n iterations of a 16 KB image, cells 0x8000 + j and 0xC000 + j hold byte j for every j below n |
| `Ordering.OrderIrrelevant` | src/software/NES_NIOSII/rom_programmer.h:13-19 | stores that agree with one pair of images can be reordered and repeated |
| `Ordering.AnyOrder` | src/software/NES_NIOSII/main.c:64-80 | after the mode word, the data words of images that fit can come in any order and any number of times |
| `Displays.Board.SetLED` | src/software/NES_NIOSII/usb_host.h:61-64 | the register is or-ed with 1 << n: exactly LED n is added to the lit ones |
| `Displays.Board.ClearLED` | src/software/NES_NIOSII/usb_host.h:66-70 | the register is and-ed with the complement of 1 << n: exactly LED n is removed from the lit ones |
| `Displays.LitBit` | src/software/NES_NIOSII/usb_host.h:61-70 | LED n is lit exactly when the register's number, halved n times, is odd |
| `Displays.Board.PrintSignedHex0` | src/software/NES_NIOSII/usb_host.h:72-97 | in register bits: LED 11 is the sign, LED 13 the hundreds, the nibbles of the high byte the tens and ones of the magnitude (0xF8 for -128), every other bit is kept |
| `Displays.Board.PrintSignedHex1` | src/software/NES_NIOSII/usb_host.h:99-126 | the same with LEDs 10 and 12 and the low byte; -128 also sets bits 8 to 11 |
| `Displays.DisplaysShowLast` | src/software/NES_NIOSII/usb_host.h:61-126 | after any interleaving on any LEDs each display stands for its last value, except that direct uses of its sign and hundreds LEDs since override them and that display 0 has stray bits exactly when -128 went to display 1 since; every LED is as the last operation that concerns it left it |
| `Displays.ReadoutsExact` | src/software/NES_NIOSII/usb_host.h:72-126 | a display reads as its last value if and only if that is not -128, no direct use of its LEDs since changed one that matters, and, for display 0, no -128 spilled over since |
| `Displays.FaceReads` | src/software/NES_NIOSII/usb_host.h:76-94 | sign, hundreds and two decimal digits decode to the value for every signed char but -128 |
| `Displays.ReadoutRegisters` | src/software/NES_NIOSII/usb_host.h:76-125 | the two readouts in register bits: LEDs 11 and 13 with the high byte, LEDs 10 and 12 with the low byte |
| `Displays.DisturbsExactly` | src/software/NES_NIOSII/usb_host.h:119-125 | display 0 never disturbs display 1; display 1 leaves display 0 alone on every panel if and only if the value is not -128 |
| `Keypad.FoldKeys` | src/software/NES_NIOSII/main.c:130-171 | all sixteen bits by key code, for reports of any length: 0x01 of the first byte is set if and only if 14 or 30 is in the report, and so on |
| `Keypad.OrderOfKeysIrrelevant` | src/software/NES_NIOSII/main.c:133-171 | the controller byte depends only on the set of codes |
| `Keypad.ReportsCombine` | src/software/NES_NIOSII/main.c:133-171 | the byte of two reports together is the bitwise or |
| `Keypad.StrobeLoads` | src/CONTROLLER.sv:84-103 | on any trace and from any register state, the key codes of the last cycle that begins with the strobe up are loaded, whether or not reads fall in the strobe; since then the register has shifted once for each read that has begun |
| `Keypad.ReadShifts` | src/CONTROLLER.sv:67-100 | while no strobe is up, every read of any duration shifts exactly once, one cycle after it begins |
| `Keypad.DataHeld` | src/CONTROLLER.sv:77-82 | the output is the low bit at the start of the last read and keeps it until the next |
| `Keypad.PolledButtons` | src/CONTROLLER.sv:67-103 | on any trace and from any register state, a read with n others before it since the strobe is 1 exactly when a key of button n is in the report loaded, and 1 past the eighth; lines may rest and key codes may change at any time |
| `Keypad.ReadWhileStrobing` | src/CONTROLLER.sv:91-103 | a read that begins while the strobe is up puts out button A of the codes loaded the cycle before |
| `Keypad.EveryReadFromReset` | src/CONTROLLER.sv:67-116 | on every trace since reset every read has the answer above, or, when no strobe came before it, 0 for the first eight reads and 1 after |
| `Keypad.GamePoll` | src/NES_ARCHITECTURE.sv:169-233 | after stores of 1 and 0 to 0x4016 the load from 0x4016 with n others before it is answered with bit n of controller one's codes at the strobe, a load from 0x4017 with controller two's, and with 1 past the eighth; fetches, DMA and loads from the other port may come in between |
| `Keypad.KeysReachGame` | src/NES_ARCHITECTURE.sv:169-233 | from key code to game: that load returns 1 exactly when the report folded into the ports holds one of the two codes of button n, named for both controllers |
| `Keypad.PadStateExists` | src/software/NES_NIOSII/main.c:130-171 | every report has a controller byte whose bits are exactly the pressed buttons |
| `UsbLoop.Main.Iterate` | src/software/NES_NIOSII/main.c:105-235 | one iteration takes flags, device, key ports, displays and events to the next state, for any two fetched USB states, reading the device class only when assigned |
| `UsbLoop.Poll` | src/software/NES_NIOSII/main.c:105-235 | any number of iterations is a run in the sense below |
| `UsbLoop.RunKeepsInv` | src/software/NES_NIOSII/main.c:110-115 | in every reachable state reports minus re-initialisations is the running flag, the device class is that of the last report, and errors announced since the last other visit number the error flag |
| `UsbLoop.PortsCarryLastReport` | src/software/NES_NIOSII/main.c:115-173 | in every reachable state the sixteen bits of the two key ports are those of the last keyboard report read, by key code |
| `UsbLoop.PortsStartClear` | src/software/NES_NIOSII/main.c:115-173 | before the first such report both ports are 0 |
| `UsbLoop.DisplaysCarryKeys` | src/software/NES_NIOSII/main.c:178-179 | the last values given to the displays are the first two codes of the last keyboard report, as signed char, while no mouse report came later |
| `UsbLoop.DisplaysCarryMouse` | src/software/NES_NIOSII/main.c:194-198 | or the x and y displacements of the last mouse report, while no keyboard report came later |
| `UsbLoop.LedsCarryButtons` | src/software/NES_NIOSII/main.c:201-212 | LEDs 2, 1 and 0 are bits 0x04, 0x02 and 0x01 of the last mouse report's buttons |
| `UsbLoop.NothingShownBefore` | src/software/NES_NIOSII/main.c:105-235 | before any report no value has been given to a display, and before any mouse report LEDs 2, 1 and 0 are dark |
| `UsbLoop.FlagsFromInputs` | src/software/NES_NIOSII/main.c:110-233 | both flags from the USB states alone: a state that is neither 0x40 nor 0xFF clears both, 0x40 sets the one, 0xFF the other |
| `UsbLoop.DeviceFromTable` | src/software/NES_NIOSII/main.c:111-114 | the device class is that of the last present row of the table when the flag last went up, 0xFF when there was none |
| `UsbLoop.RunningLed` | src/software/NES_NIOSII/main.c:111-114 | LED 9 is lit exactly when neither an error message nor an other visit followed the last report; lit implies running |
| `UsbLoop.RunningLedFromInputs` | src/software/NES_NIOSII/main.c:111-232 | the same from the inputs: lit since the flag last went up, unless an unannounced error or any other state came after |
| `UsbLoop.RunningLedDarkAfterError` | src/software/NES_NIOSII/main.c:214-220 | a run that ends running with LED 9 dark |
| `UsbLoop.RunReadouts` | src/software/NES_NIOSII/main.c:178-198 | in every reachable state the displays read as their last values, with the exception of -128 |
| `UsbLoop.StepExists` | src/software/NES_NIOSII/main.c:105-235 | every input has a successor in every reachable state |
| `UsbLoop.GetDriver` | src/software/NES_NIOSII/usb_host.h:28-40 | the class of the highest present device from index 1 on, or 0xFF when none is present |
| `UsbLoop.LastPresent` | src/software/NES_NIOSII/usb_host.h:33-40 | the highest index from 1 on with endpoint information, none when there is none |
| `RegisterCodec.RegRd` | src/software/NES_NIOSII/sgtl5000/sgtl5000.c:8-26 | the address goes out as two bytes, high first; a successful read returns the register that the frame addresses, through a buffer shared by address and reply |
| `RegisterCodec.RegWr` | src/software/NES_NIOSII/sgtl5000/sgtl5000.c:28-47 | address and data go out as four bytes, high first; a successful write updates exactly the addressed register and returns the data |
| `RegisterCodec.Perform` | src/software/NES_NIOSII/sgtl5000/sgtl5000.c:8-47 | a sequence of transfers leaves the registers of `After`, and every read returns what stands there at its turn |
| `RegisterCodec.ReadsLastWrite` | src/software/NES_NIOSII/sgtl5000/sgtl5000.c:8-47 | from any registers, a register holds what was last written to its address |
| `RegisterCodec.ReadsUnwritten` | src/software/NES_NIOSII/sgtl5000/sgtl5000.c:8-47 | a register whose address is not written keeps what it held, its own reset value at first |
| `Basics.CharRoundTrip` | src/software/NES_NIOSII/main.c:66 | a byte narrowed to a signed char and widened to alt_u8 is unchanged |
| `Basics.ToU16Value` | src/software/NES_NIOSII/rom_programmer.h:13-17 | an address passed as alt_u16 is taken modulo 65536 |

## Left out

- RomDevice.BusRefines: a memory clock edge is taken to see settled bus values; metastability between the two clocks is not modelled.
- RegisterCodec.RegRd: a failed transfer is a result without a value where the program prints a message and hangs; a failed transfer is taken not to reach the registers.
- UsbLoop.Main.Iterate: a NAK and other return codes differ only in what is printed, as does the third fetch of the USB state; neither print is modelled.
- UsbLoop.GetDriver: the index is unbounded where the source has a byte, so the model does not show that the loop would not end on a table of more than 255 rows; the source's has 8.
- CHR_ROM.sv indexes 8192 cells with 16 bits. What happens past the end is a parameter: truncated, as synthesis does, or ignored, as the SystemVerilog standard has it. Theorems hold for both.
- Loop counters and sizes are unbounded integers: the largest size is 255 banks, far inside a 32-bit int.
- int.from_bytes without a byte order is taken as Python 3.11 and later define it; line ends are written as line feeds.
- The CPU, PPU, APU and VGA hardware, DMA and name-table RAM: independent of ROM delivery and of the control software; the CPU bus cycles that poll the controllers are arbitrary inputs.
- The NES-side read ports of the ROM memories, beyond which cell an address reads.
- The MAX3421E driver, USB transfers, the Altera HAL and the I2C core: their results are arbitrary inputs.
- `init_audio` in `audio.h`: a fixed list of register writes.
- File paths, command-line arguments, and everything that `printf` and Python's `print` show.
