/** Streaming pixel rows to the LS013B7DH03 display over SPI
    (3rd_party/efm32pg1b/display_ls013b7dh03.c and displaypalemlib.c). */
module Display {
  import opened Arithmetic
  import opened Collections

  const CMD_UPDATE: byte := 0x01
  const DUMMY: byte := 0xFF
  const ROW := 16  // bytes in a row of 128 pixels

  /** The SPI unit. Besides the bytes on the wire it records at which addresses 16-bit words were
      read from memory, and how many transfers of either size were made. */
  class Usart {
    ghost var wire: seq<byte>
    ghost var wordReads: seq<nat>
    ghost var singles: nat

    constructor ()
      ensures wire == [] && wordReads == [] && singles == 0
    {
      wire, wordReads, singles := [], [], 0;
    }

    method Tx(b: byte)
      modifies this
      ensures wire == old(wire) + [b] && wordReads == old(wordReads) && singles == old(singles) + 1
    {
      wire, singles := wire + [b], singles + 1;
    }

    /** A double transmission of the little-endian word at address `addr`, low byte first. */
    method TxDouble(lo: byte, hi: byte, ghost addr: nat)
      modifies this
      ensures wire == old(wire) + [lo, hi] && wordReads == old(wordReads) + [addr]
      ensures singles == old(singles)
    {
      wire, wordReads := wire + [lo, hi], wordReads + [addr];
    }
  }

  /** How many double transmissions a transfer of `n` bytes from address `addr` takes. */
  function Doubles(addr: nat, n: nat): nat {
    if n == 0 then 0 else (n - addr % 2) / 2
  }

  lemma SingleStep(addr: nat, n: nat)
    requires n == 1 || (n > 0 && addr % 2 == 1)
    ensures Doubles(addr + 1, n - 1) == Doubles(addr, n)
  {}

  lemma DoubleStep(addr: nat, n: nat)
    requires n >= 2 && addr % 2 == 0
    ensures Doubles(addr + 2, n - 2) + 1 == Doubles(addr, n)
  {}

  /** The words that lie wholly within `n` bytes from `addr`, by their even addresses. */
  ghost function WordsWithin(addr: nat, n: nat): set<nat> {
    set a: nat | addr <= a < addr + n && a + 1 < addr + n && a % 2 == 0
  }

  /** There is one double transmission for each of them. */
  lemma {:induction false} DoublesAreWords(addr: nat, n: nat)
    ensures Doubles(addr, n) == |WordsWithin(addr, n)|
    decreases n
  {
    if n == 0 {
      assert WordsWithin(addr, n) == {};
    } else if n == 1 || addr % 2 == 1 {
      SingleStep(addr, n);
      assert WordsWithin(addr, n) == WordsWithin(addr + 1, n - 1);
      DoublesAreWords(addr + 1, n - 1);
    } else {
      DoubleStep(addr, n);
      assert WordsWithin(addr, n) == WordsWithin(addr + 2, n - 2) + {addr};
      DoublesAreWords(addr + 2, n - 2);
    }
  }

  /** Sends `n` bytes of `mem` from offset `at`; `base` is the address of the first cell. Words are
      only read at even addresses, and as many of them as possible are. */
  method SpiTransmit(usart: Usart, mem: array<byte>, base: nat, at: nat, n: nat)
    requires at + n <= mem.Length
    modifies usart
    ensures usart.wire == old(usart.wire) + mem[at..at + n]
    ensures |usart.wordReads| == |old(usart.wordReads)| + Doubles(base + at, n)
    ensures usart.singles == old(usart.singles) + n - 2 * Doubles(base + at, n)
    ensures old(usart.wordReads) <= usart.wordReads
    ensures forall i | |old(usart.wordReads)| <= i < |usart.wordReads| :: usart.wordReads[i] % 2 == 0
  {
    var data, len := at, n;
    while len > 0
      invariant at <= data && data + len == at + n
      invariant usart.wire == old(usart.wire) + mem[at..data]
      invariant |usart.wordReads| + Doubles(base + data, len) == |old(usart.wordReads)| + Doubles(base + at, n)
      invariant usart.singles + len - 2 * Doubles(base + data, len)
                == old(usart.singles) + n - 2 * Doubles(base + at, n)
      invariant old(usart.wordReads) <= usart.wordReads
      invariant forall i | |old(usart.wordReads)| <= i < |usart.wordReads| :: usart.wordReads[i] % 2 == 0
      decreases len
    {
      if len == 1 || (base + data) % 2 == 1 {
        SingleStep(base + data, len);
        usart.Tx(mem[data]);
        len := len - 1;
        data := data + 1;
      } else {
        DoubleStep(base + data, len);
        usart.TxDouble(mem[data], mem[data + 1], base + data);
        len := len - 2;
        data := data + 2;
      }
    }
  }

  // ---------------------------------------------------- what the display receives

  const UNIT := ROW + 2  // bytes on the wire per line: address, row, dummy byte

  /** The k-th line of an update as the display reads it: behind the command and the lines before
      it come an address, a row of pixels and a dummy byte. */
  ghost predicate Shows(update: seq<byte>, k: nat, address: nat, row: seq<byte>) {
    && UNIT * k + UNIT < |update|
    && update[UNIT * k + 1] == address && update[UNIT * k + 2..UNIT * k + 2 + ROW] == row
    && update[UNIT * k + UNIT] == DUMMY
  }

  /** Row `k` of a pixel array that is shown from row `y` on. The display counts its lines from one,
      and the address has 8 bits. */
  ghost predicate ShowsRow(update: seq<byte>, k: nat, y: byte, pixels: seq<byte>)
    requires ROW * k + ROW <= |pixels|
  {
    Shows(update, k, (y + 1 + k) % 256, pixels[ROW * k..ROW * k + ROW])
  }

  /** The beginning of an update: `k` complete lines and the address of the next one. */
  ghost predicate Begun(update: seq<byte>, k: nat, y: byte, pixels: seq<byte>) {
    && |update| == UNIT * k + 2 && ROW * k <= |pixels|
    && update[0] == CMD_UPDATE && update[UNIT * k + 1] == (y + 1 + k) % 256
    && forall j: nat | j < k :: ShowsRow(update, j, y, pixels)
  }

  lemma ShowsLonger(update: seq<byte>, more: seq<byte>, k: nat, address: nat, row: seq<byte>)
    requires Shows(update, k, address, row)
    ensures Shows(update + more, k, address, row)
  {}

  /** Sending a row, a dummy byte and one byte more completes a line. */
  lemma LineCompleted(update: seq<byte>, k: nat, y: byte, pixels: seq<byte>, next: byte)
    requires Begun(update, k, y, pixels) && ROW * k + ROW <= |pixels|
    ensures var u := update + pixels[ROW * k..ROW * k + ROW] + [DUMMY, next];
      && |u| == UNIT * (k + 1) + 2 && u[0] == CMD_UPDATE && u[UNIT * (k + 1) + 1] == next
      && forall j: nat | j <= k :: ShowsRow(u, j, y, pixels)
  {
    var row := pixels[ROW * k..ROW * k + ROW];
    var more := row + [DUMMY, next];
    var u := update + row + [DUMMY, next];
    assert u == update + more;
    forall j: nat | j <= k ensures ShowsRow(u, j, y, pixels) {
      if j < k {
        assert ShowsRow(update, j, y, pixels);
        ShowsLonger(update, more, j, (y + 1 + j) % 256, pixels[ROW * j..ROW * j + ROW]);
      }
    }
  }

  lemma WrapOnce(a: nat, b: nat)
    ensures (a % 256 + b) % 256 == (a + b) % 256
  {}

  /** The 18 bytes of the k-th line of an update, behind the command. */
  function LineOf(update: seq<byte>, k: nat): seq<byte> {
    if 18 * k + 19 <= |update| then update[18 * k + 1..18 * k + 19] else []
  }

  function RowOf(pixels: seq<byte>, k: nat): seq<byte> {
    if 16 * k + 16 <= |pixels| then pixels[16 * k..16 * k + 16] else []
  }

  lemma LineShowsRow(update: seq<byte>, k: nat, y: byte, pixels: seq<byte>)
    requires ROW * k + ROW <= |pixels| && ShowsRow(update, k, y, pixels)
    ensures LineOf(update, k) == [(y + 1 + k) % 256] + RowOf(pixels, k) + [0xFF]
  {
    var line, row, n := LineOf(update, k), pixels[16 * k..16 * k + 16], 18 * k;
    assert UNIT * k == n && update[n + 2..n + 2 + ROW] == row;
    forall i | 0 <= i < 16 ensures line[1..17][i] == row[i] {
      assert update[n + 2..n + 2 + ROW][i] == update[n + 2 + i];
    }
    assert line[1..17] == row;
    assert line == [line[0]] + line[1..17] + [line[17]];
  }

  // ------------------------------------------------------------------- sending

  /** Sends `h` rows of pixels, to be shown from row `y` on; the display counts from one. Every row
      goes to its line, the update ends with the trailing dummy byte, and nothing beyond the array
      is read. */
  method SendPA(usart: Usart, pa: array<byte>, base: nat, y: byte, h: byte)
    requires h >= 1 && pa.Length == ROW * h
    modifies usart
    ensures old(usart.wire) <= usart.wire
    ensures var update := usart.wire[|old(usart.wire)|..];
      && |update| == UNIT * h + 2 && update[0] == CMD_UPDATE && update[UNIT * h + 1] == DUMMY
      && forall k: nat | k < h :: ShowsRow(update, k, y, pa[..])
    ensures var update := usart.wire[|old(usart.wire)|..];
      && update[0] == 0x01
      && forall k: nat | k < h :: LineOf(update, k) == [(y + 1 + k) % 256] + RowOf(pa[..], k) + [0xFF]
  {
    var line: byte := (y + 1) % 256;
    SendCommand(usart, CMD_UPDATE, line);
    ghost var start, update: seq<byte> := old(usart.wire), [CMD_UPDATE, line];
    var p := 0;
    var i := 0;
    while i < h - 1
      invariant 0 <= i <= h - 1 && p == ROW * i
      invariant usart.wire == start + update && Begun(update, i, y, pa[..])
    {
      update := SendLine(usart, pa, base, p, (line + i + 1) % 256, start, update, i, y);
      WrapOnce(y + 1, i + 1);
      p := p + ROW;
      i := i + 1;
    }
    update := SendLine(usart, pa, base, p, DUMMY, start, update, i, y);
    assert usart.wire[|start|..] == update;
    forall k: nat | k < h ensures LineOf(update, k) == [(y + 1 + k) % 256] + RowOf(pa[..], k) + [0xFF] {
      LineShowsRow(update, k, y, pa[..]);
    }
  }

  /** One row of pixels, the dummy byte behind it, and the byte after that: the address of the
      next line, or a second dummy byte. `start` is what the wire held before the update. */
  method SendLine(usart: Usart, pa: array<byte>, base: nat, p: nat, next: byte,
                  ghost start: seq<byte>, ghost update: seq<byte>, ghost k: nat, ghost y: byte)
    returns (ghost longer: seq<byte>)
    requires p == ROW * k && p + ROW <= pa.Length
    requires usart.wire == start + update && Begun(update, k, y, pa[..])
    modifies usart
    ensures usart.wire == start + longer && pa[..] == old(pa[..])
    ensures |longer| == UNIT * (k + 1) + 2 && longer[0] == CMD_UPDATE && longer[UNIT * (k + 1) + 1] == next
    ensures forall j: nat | j <= k :: ShowsRow(longer, j, y, pa[..])
  {
    SpiTransmit(usart, pa, base, p, ROW);
    assert pa[p..p + ROW] == pa[..][p..p + ROW];
    SendCommand(usart, DUMMY, next);
    var row := pa[..][p..p + ROW];
    longer := update + row + [DUMMY, next];
    Assoc(start, update, row);
    Assoc(start, update + row, [DUMMY, next]);
    LineCompleted(update, k, y, pa[..], next);
  }

  /** The 16-bit local variable that carries commands and addresses; it lies at an even address. */
  method SendCommand(usart: Usart, lo: byte, hi: byte)
    modifies usart
    ensures usart.wire == old(usart.wire) + [lo, hi]
  {
    var cmd := new byte[2];
    cmd[0], cmd[1] := lo, hi;
    SpiTransmit(usart, cmd, 0, 0, 2);
    assert cmd[0..2] == [lo, hi];
  }
}
