/** Instruction bits of ISP commands: avr_set_bits, avr_set_addr, avr_set_input and avr_get_output. */
module Opcode {
  import opened ByteBits
  import opened BitMask
  import Division

  datatype Kind = Ignore | Value | Address | Input | Output

  datatype OpBit = OpBit(kind: Kind, bitno: nat, value: int)

  /** Bit i of the instruction, counted from the low end of the last command byte. */
  predicate ValidOp(op: seq<OpBit>) {
    |op| == 32
  }

  // ----- bits of bytes

  /** 1 << k in an unsigned char. */
  function Mask(k: nat): bv8 {
    match k
    case 0 => 0x01
    case 1 => 0x02
    case 2 => 0x04
    case 3 => 0x08
    case 4 => 0x10
    case 5 => 0x20
    case 6 => 0x40
    case 7 => 0x80
    case _ => 0
  }

  predicate Bit(b: bv8, k: nat) {
    b & Mask(k) != 0
  }

  function Assign(b: bv8, k: nat, v: bool): bv8 {
    if v then b | Mask(k) else b & !Mask(k)
  }

  /** Bit k is the binary digit k of the byte. */
  lemma BitIsDigit(b: bv8, k: nat)
    ensures Bit(b, k) <==> Num(b) / Pow2(k) % 2 == 1
  {
    DigitsOfByte(b);
    AndNothing8(b);
    hide Num;
    OctetPowers();
    hide Pow2;
    if k >= 8 {
      Pow2Grows(8, k);
      NoHighDigits(Num(b), k);
    }
  }

  lemma AndNothing8(b: bv8)
    ensures b & 0 == 0
  {
  }

  lemma MaskedBit(m: bv8, w: bv8, b: bv8)
    requires m & w == 0
    ensures (b | m) & w == b & w && (b & !m) & w == b & w
  {
  }

  lemma MasksDisjoint(k: nat, j: nat)
    requires k != j
    ensures Mask(k) & Mask(j) == 0
  {
  }

  lemma AssignBit(b: bv8, k: nat, v: bool, j: nat)
    requires k < 8 && j < 8
    ensures Bit(Assign(b, k, v), j) == if j == k then v else Bit(b, j)
  {
    if j != k {
      hide Mask;
      MasksDisjoint(k, j);
      MaskedBit(Mask(k), Mask(j), b);
    } else {
      OwnBit(b, k);
    }
  }

  lemma OwnBit(b: bv8, k: nat)
    requires k < 8
    ensures (b | Mask(k)) & Mask(k) != 0 && (b & !Mask(k)) & Mask(k) == 0
  {
    SetMask(b, Mask(k));
  }

  lemma SetMask(b: bv8, m: bv8)
    ensures (b | m) & m == m && (b & !m) & m == 0
  {
  }

  predicate SameBits(a: bv8, b: bv8) {
    forall k | 0 <= k < 8 :: Bit(a, k) == Bit(b, k)
  }

  /** A byte is its eight bits. */
  lemma BitsMakeByte(a: bv8, b: bv8)
    requires SameBits(a, b)
    ensures a == b
  {
    assert Bit(a, 0) == Bit(b, 0) && Bit(a, 1) == Bit(b, 1) && Bit(a, 2) == Bit(b, 2) && Bit(a, 3) == Bit(b, 3);
    assert Bit(a, 4) == Bit(b, 4) && Bit(a, 5) == Bit(b, 5) && Bit(a, 6) == Bit(b, 6) && Bit(a, 7) == Bit(b, 7);
    EightBits(a, b);
  }

  lemma EightBits(a: bv8, b: bv8)
    requires (a & 0x01 != 0) == (b & 0x01 != 0) && (a & 0x02 != 0) == (b & 0x02 != 0)
    requires (a & 0x04 != 0) == (b & 0x04 != 0) && (a & 0x08 != 0) == (b & 0x08 != 0)
    requires (a & 0x10 != 0) == (b & 0x10 != 0) && (a & 0x20 != 0) == (b & 0x20 != 0)
    requires (a & 0x40 != 0) == (b & 0x40 != 0) && (a & 0x80 != 0) == (b & 0x80 != 0)
    ensures a == b
  {
  }

  // ----- bits of commands

  predicate CmdBit(cmd: seq<bv8>, i: nat)
    requires |cmd| == 4 && i < 32
  {
    Bit(cmd[3 - i / 8], i % 8)
  }

  /** The four bytes as one number, the first byte highest. */
  function CommandNumber(cmd: seq<bv8>): nat
    requires |cmd| == 4
  {
    ((Num(cmd[0]) * 256 + Num(cmd[1])) * 256 + Num(cmd[2])) * 256 + Num(cmd[3])
  }

  /** Bit i of a command is the binary digit i of that number. */
  lemma CmdBitIsDigit(cmd: seq<bv8>, i: nat)
    requires |cmd| == 4 && i < 32
    ensures CmdBit(cmd, i) <==> CommandNumber(cmd) / Pow2(i) % 2 == 1
  {
    hide Num, Bit, Pow2;
    BitIsDigit(cmd[3 - i / 8], i % 8);
    DigitOfFour(Num(cmd[0]), Num(cmd[1]), Num(cmd[2]), Num(cmd[3]), i);
  }

  /** The command with bit i assigned. */
  function AssignCmd(cmd: seq<bv8>, i: nat, v: bool): (r: seq<bv8>)
    requires |cmd| == 4 && i < 32
    ensures |r| == 4
  {
    cmd[3 - i / 8 := Assign(cmd[3 - i / 8], i % 8, v)]
  }

  lemma AssignCmdBit(cmd: seq<bv8>, i: nat, v: bool, j: nat)
    requires |cmd| == 4 && i < 32 && j < 32
    ensures CmdBit(AssignCmd(cmd, i, v), j) == if j == i then v else CmdBit(cmd, j)
  {
    hide Assign, Bit;
    if i / 8 == j / 8 {
      AssignBit(cmd[3 - i / 8], i % 8, v, j % 8);
      assert i == 8 * (i / 8) + i % 8 && j == 8 * (j / 8) + j % 8;
    }
  }

  /** A command is its thirty-two bits. */
  lemma BitsMakeCommand(a: seq<bv8>, b: seq<bv8>)
    requires |a| == |b| == 4 && forall i | 0 <= i < 32 :: CmdBit(a, i) == CmdBit(b, i)
    ensures a == b
  {
    hide Bit;
    forall j | 0 <= j < 4
      ensures a[j] == b[j]
    {
      forall k | 0 <= k < 8
        ensures Bit(a[j], k) == Bit(b[j], k)
      {
        var i := 8 * (3 - j) + k;
        assert i / 8 == 3 - j && i % 8 == k;
        assert CmdBit(a, i) == CmdBit(b, i);
      }
      BitsMakeByte(a[j], b[j]);
    }
  }

  // ----- the setters

  /** addr >> n & 1 */
  predicate NumberBit(addr: nat, n: nat) {
    if n == 0 then addr % 2 == 1 else NumberBit(addr / 2, n - 1)
  }

  /** The bit tested is the binary digit. */
  lemma {:induction false} NumberBitIsDigit(addr: nat, n: nat)
    ensures NumberBit(addr, n) <==> addr / Pow2(n) % 2 == 1
    decreases n
  {
    if n > 0 {
      NumberBitIsDigit(addr / 2, n - 1);
      HalfDigit(addr, n);
    }
  }

  /** What the setters write: the value of the instruction, address bits, input bits. */
  datatype Source = Values | Addr(addr: nat) | Data(data: bv8)

  function KindOf(s: Source): Kind {
    match s
    case Values => Value
    case Addr(_) => Address
    case Data(_) => Input
  }

  predicate Wanted(s: Source, b: OpBit) {
    match s
    case Values => b.value != 0
    case Addr(a) => a / Pow2(b.bitno) % 2 == 1
    case Data(d) => Num(d) / Pow2(b.bitno) % 2 == 1
  }

  /** The command after the first n turns of a setter's loop. */
  function SetFirst(op: seq<OpBit>, s: Source, cmd: seq<bv8>, n: nat): (r: seq<bv8>)
    requires ValidOp(op) && |cmd| == 4 && n <= 32
    ensures |r| == 4
  {
    if n == 0 then cmd
    else
      var c := SetFirst(op, s, cmd, n - 1);
      if op[n - 1].kind == KindOf(s) then AssignCmd(c, n - 1, Wanted(s, op[n - 1])) else c
  }

  function Set(op: seq<OpBit>, s: Source, cmd: seq<bv8>): (r: seq<bv8>)
    requires ValidOp(op) && |cmd| == 4
    ensures |r| == 4
  {
    SetFirst(op, s, cmd, 32)
  }

  /** What the loops of all three setters do with one bit. */
  method WriteBit(cmd: array<bv8>, i: nat, value: bool)
    requires cmd.Length == 4 && i < 32
    modifies cmd
    ensures cmd[..] == AssignCmd(old(cmd[..]), i, value)
  {
    hide Mask;
    var j, bit := 3 - i / 8, i % 8;
    var mask := Mask(bit);
    if value {
      cmd[j] := cmd[j] | mask;
    } else {
      cmd[j] := cmd[j] & !mask;
    }
  }

  method AvrSetBits(op: seq<OpBit>, cmd: array<bv8>)
    requires ValidOp(op) && cmd.Length == 4
    modifies cmd
    ensures cmd[..] == Set(op, Values, old(cmd[..]))
  {
    hide Bit, NumberBit, AssignCmd, Pow2, Num;
    for i := 0 to 32
      invariant cmd[..] == SetFirst(op, Values, old(cmd[..]), i)
    {
      if op[i].kind == Value {
        WriteBit(cmd, i, op[i].value != 0);
      }
    }
  }

  method AvrSetAddr(op: seq<OpBit>, cmd: array<bv8>, addr: nat)
    requires ValidOp(op) && cmd.Length == 4
    modifies cmd
    ensures cmd[..] == Set(op, Addr(addr), old(cmd[..]))
  {
    hide Bit, NumberBit, AssignCmd, Pow2, Num;
    for i := 0 to 32
      invariant cmd[..] == SetFirst(op, Addr(addr), old(cmd[..]), i)
    {
      if op[i].kind == Address {
        NumberBitIsDigit(addr, op[i].bitno);
        WriteBit(cmd, i, NumberBit(addr, op[i].bitno));
      }
    }
  }

  method AvrSetInput(op: seq<OpBit>, cmd: array<bv8>, data: bv8)
    requires ValidOp(op) && cmd.Length == 4
    modifies cmd
    ensures cmd[..] == Set(op, Data(data), old(cmd[..]))
  {
    hide Bit, NumberBit, AssignCmd, Pow2, Num;
    for i := 0 to 32
      invariant cmd[..] == SetFirst(op, Data(data), old(cmd[..]), i)
    {
      if op[i].kind == Input {
        BitIsDigit(data, op[i].bitno);
        WriteBit(cmd, i, Bit(data, op[i].bitno));
      }
    }
  }

  lemma {:induction false} SetFirstBits(op: seq<OpBit>, s: Source, cmd: seq<bv8>, n: nat, i: nat)
    requires ValidOp(op) && |cmd| == 4 && n <= 32 && i < 32
    ensures CmdBit(SetFirst(op, s, cmd, n), i) ==
      if i < n && op[i].kind == KindOf(s) then Wanted(s, op[i]) else CmdBit(cmd, i)
    decreases n
  {
    hide CmdBit, AssignCmd;
    if n > 0 {
      SetFirstBits(op, s, cmd, n - 1, i);
      AssignCmdBit(SetFirst(op, s, cmd, n - 1), n - 1, Wanted(s, op[n - 1]), i);
    }
  }

  /** A setter writes exactly the bits of its kind. */
  lemma SetBit(op: seq<OpBit>, s: Source, cmd: seq<bv8>, i: nat)
    requires ValidOp(op) && |cmd| == 4 && i < 32
    ensures CmdBit(Set(op, s, cmd), i) ==
      if op[i].kind != KindOf(s) then CmdBit(cmd, i)
      else if s.Values? then op[i].value != 0
      else (if s.Addr? then s.addr else Num(s.data)) / Pow2(op[i].bitno) % 2 == 1
  {
    hide CmdBit, SetFirst, Pow2, Num;
    SetFirstBits(op, s, cmd, 32, i);
  }

  /** Setters of different kinds commute. */
  lemma SettersCommute(op: seq<OpBit>, s: Source, t: Source, cmd: seq<bv8>)
    requires ValidOp(op) && |cmd| == 4 && KindOf(s) != KindOf(t)
    ensures Set(op, s, Set(op, t, cmd)) == Set(op, t, Set(op, s, cmd))
  {
    hide CmdBit, Set;
    var a, b := Set(op, s, Set(op, t, cmd)), Set(op, t, Set(op, s, cmd));
    forall i | 0 <= i < 32
      ensures CmdBit(a, i) == CmdBit(b, i)
    {
      SetBit(op, s, Set(op, t, cmd), i);
      SetBit(op, t, cmd, i);
      SetBit(op, t, Set(op, s, cmd), i);
      SetBit(op, s, cmd, i);
    }
    BitsMakeCommand(a, b);
  }

  /** Of two settings of the same kind the second counts; setting twice is setting once. */
  lemma LastSettingCounts(op: seq<OpBit>, s: Source, t: Source, cmd: seq<bv8>)
    requires ValidOp(op) && |cmd| == 4 && KindOf(s) == KindOf(t)
    ensures Set(op, s, Set(op, t, cmd)) == Set(op, s, cmd)
  {
    hide CmdBit, Set;
    var a, b := Set(op, s, Set(op, t, cmd)), Set(op, s, cmd);
    forall i | 0 <= i < 32
      ensures CmdBit(a, i) == CmdBit(b, i)
    {
      SetBit(op, s, Set(op, t, cmd), i);
      SetBit(op, t, cmd, i);
      SetBit(op, s, cmd, i);
    }
    BitsMakeCommand(a, b);
  }

  /** A command as the drivers build it in a cleared buffer. */
  function Command(op: seq<OpBit>, addr: nat, data: bv8): (r: seq<bv8>)
    requires ValidOp(op)
    ensures |r| == 4
  {
    Set(op, Data(data), Set(op, Addr(addr), Set(op, Values, [0, 0, 0, 0])))
  }

  lemma CommandBit(op: seq<OpBit>, addr: nat, data: bv8, i: nat)
    requires ValidOp(op) && i < 32
    ensures CmdBit(Command(op, addr, data), i) ==
      match op[i].kind
      case Value => op[i].value != 0
      case Address => addr / Pow2(op[i].bitno) % 2 == 1
      case Input => Num(data) / Pow2(op[i].bitno) % 2 == 1
      case _ => false
  {
    hide Set, Bit, Pow2, Num;
    var zero: seq<bv8> := [0, 0, 0, 0];
    SetBit(op, Data(data), Set(op, Addr(addr), Set(op, Values, zero)), i);
    SetBit(op, Addr(addr), Set(op, Values, zero), i);
    SetBit(op, Values, zero, i);
    ZeroBit(i % 8);
  }

  lemma ZeroBit(k: nat)
    ensures !Bit(0, k)
  {
    AndZero(Mask(k));
  }

  lemma AndZero(m: bv8)
    ensures (0 as bv8) & m == 0
  {
  }

  /** Two addresses and data bytes agree on all bits that the instruction takes. */
  predicate Agree(op: seq<OpBit>, a: nat, d: bv8, a': nat, d': bv8) {
    forall b | b in op ::
      && (b.kind == Address ==> a / Pow2(b.bitno) % 2 == a' / Pow2(b.bitno) % 2)
      && (b.kind == Input ==> Num(d) / Pow2(b.bitno) % 2 == Num(d') / Pow2(b.bitno) % 2)
  }

  /** The command determines the mapped address and data bits, and nothing else. */
  lemma CommandDetermines(op: seq<OpBit>, a: nat, d: bv8, a': nat, d': bv8)
    requires ValidOp(op)
    ensures Command(op, a, d) == Command(op, a', d') <==> Agree(op, a, d, a', d')
  {
    hide Command, CmdBit, Bit, Pow2, Num;
    var c, c' := Command(op, a, d), Command(op, a', d');
    forall i | 0 <= i < 32
      ensures Agree(op, a, d, a', d') ==> CmdBit(c, i) == CmdBit(c', i)
      ensures c == c' ==>
        && (op[i].kind == Address ==> a / Pow2(op[i].bitno) % 2 == a' / Pow2(op[i].bitno) % 2)
        && (op[i].kind == Input ==> Num(d) / Pow2(op[i].bitno) % 2 == Num(d') / Pow2(op[i].bitno) % 2)
    {
      assert op[i] in op;
      CommandBit(op, a, d, i);
      CommandBit(op, a', d', i);
    }
    if Agree(op, a, d, a', d') {
      BitsMakeCommand(c, c');
    }
  }

  /** Bit n of the number that the address bits, or the input bits, of a command spell. */
  predicate Spells(op: seq<OpBit>, kind: Kind, cmd: seq<bv8>, n: nat)
    requires ValidOp(op) && |cmd| == 4
  {
    exists i | 0 <= i < 32 :: op[i].kind == kind && op[i].bitno == n && CmdBit(cmd, i)
  }

  /** That number, as far as its lowest k bits. */
  function Spelled(op: seq<OpBit>, kind: Kind, cmd: seq<bv8>, k: nat): nat
    requires ValidOp(op) && |cmd| == 4
  {
    if k == 0 then 0
    else Spelled(op, kind, cmd, k - 1) + (if Spells(op, kind, cmd, k - 1) then Pow2(k - 1) else 0)
  }

  predicate Maps(op: seq<OpBit>, kind: Kind, n: nat)
    requires ValidOp(op)
  {
    exists i | 0 <= i < 32 :: op[i].kind == kind && op[i].bitno == n
  }

  /** An instruction that maps the lowest k bits of the address, or of the data, spells that number modulo 2^k. */
  lemma {:induction false} CommandSpells(op: seq<OpBit>, kind: Kind, addr: nat, data: bv8, k: nat)
    requires ValidOp(op) && (kind == Address || kind == Input)
    requires forall n: nat | n < k :: Maps(op, kind, n)
    ensures Spelled(op, kind, Command(op, addr, data), k) == (if kind == Address then addr else Num(data)) % Pow2(k)
    decreases k
  {
    hide Command, Pow2, CmdBit, Num, Spells;
    var x := if kind == Address then addr else Num(data);
    if k == 0 {
      OctetPowers();
      Division.Unique(x, 1, x, 0);
    } else {
      CommandSpells(op, kind, addr, data, k - 1);
      SpellsDigit(op, kind, addr, data, k - 1);
      TopDigit(x, k);
    }
  }

  lemma SpellsDigit(op: seq<OpBit>, kind: Kind, addr: nat, data: bv8, n: nat)
    requires ValidOp(op) && (kind == Address || kind == Input) && Maps(op, kind, n)
    ensures Spells(op, kind, Command(op, addr, data), n) <==>
      (if kind == Address then addr else Num(data)) / Pow2(n) % 2 == 1
  {
    hide Command, Pow2, CmdBit, Num;
    forall i | 0 <= i < 32 && op[i].kind == kind && op[i].bitno == n
      ensures CmdBit(Command(op, addr, data), i) <==> (if kind == Address then addr else Num(data)) / Pow2(n) % 2 == 1
    {
      CommandBit(op, addr, data, i);
    }
  }

  // ----- the output

  /** The output byte after the first n turns of the loop: a bit that is 0 in the reply
      shifts to the mask 0 and leaves the byte alone. */
  function OutputFirst(op: seq<OpBit>, res: seq<bv8>, data: bv8, n: nat): bv8
    requires ValidOp(op) && |res| == 4 && n <= 32
  {
    if n == 0 then data
    else
      var d := OutputFirst(op, res, data, n - 1);
      if op[n - 1].kind == Output && CmdBit(res, n - 1) then d | Mask(op[n - 1].bitno) else d
  }

  /** The assignments for one reply bit whose place in the data byte is m. */
  function OutputBit(data: bv8, isSet: bool, m: bv8): bv8 {
    var value := if isSet then m else 0;
    if value != 0 then data | value else data & !value
  }

  method AvrGetOutput(op: seq<OpBit>, res: array<bv8>, data0: bv8) returns (data: bv8)
    requires ValidOp(op) && res.Length == 4
    ensures data == OutputFirst(op, res[..], data0, 32)
  {
    hide Mask, Bit, OutputBit;
    data := data0;
    for i := 0 to 32
      invariant data == OutputFirst(op, res[..], data0, i)
    {
      if op[i].kind == Output {
        var j, bit := 3 - i / 8, i % 8;
        OutputBitIsOr(data, Bit(res[j], bit), Mask(op[i].bitno));
        data := OutputBit(data, Bit(res[j], bit), Mask(op[i].bitno));
      }
    }
  }

  lemma OutputBitIsOr(data: bv8, isSet: bool, m: bv8)
    ensures OutputBit(data, isSet, m) == if isSet then data | m else data
  {
  }

  /** Some output bit of the first n stands for bit k of the byte and is set in the reply. */
  predicate Sets(op: seq<OpBit>, res: seq<bv8>, n: nat, k: nat)
    requires ValidOp(op) && |res| == 4 && n <= 32
  {
    exists i | 0 <= i < n :: op[i].kind == Output && op[i].bitno == k && CmdBit(res, i)
  }

  lemma {:induction false} OutputFirstBit(op: seq<OpBit>, res: seq<bv8>, data: bv8, n: nat, k: nat)
    requires ValidOp(op) && |res| == 4 && n <= 32 && k < 8
    ensures Bit(OutputFirst(op, res, data, n), k) <==> Bit(data, k) || Sets(op, res, n, k)
    decreases n
  {
    hide CmdBit, Bit, Mask;
    if n > 0 {
      OutputFirstBit(op, res, data, n - 1, k);
      OrBit(OutputFirst(op, res, data, n - 1), op[n - 1].bitno, k);
      assert Sets(op, res, n, k) <==>
        Sets(op, res, n - 1, k) || (op[n - 1].kind == Output && op[n - 1].bitno == k && CmdBit(res, n - 1));
    }
  }

  lemma OrBit(d: bv8, m: nat, k: nat)
    requires k < 8
    ensures Bit(d | Mask(m), k) <==> Bit(d, k) || m == k
  {
    if m < 8 {
      AssignBit(d, m, true, k);
    } else {
      OrZero(d);
    }
  }

  lemma OrZero(d: bv8)
    ensures d | 0 == d
  {
  }

  predicate HasOutput(op: seq<OpBit>, k: nat)
    requires ValidOp(op)
  {
    exists i | 0 <= i < 32 :: op[i].kind == Output && op[i].bitno == k
  }

  /** The reply carries b at the output bits, and each bit of b is at one of them. */
  predicate Carries(op: seq<OpBit>, res: seq<bv8>, b: bv8)
    requires ValidOp(op) && |res| == 4
  {
    && (forall i | 0 <= i < 32 :: op[i].kind == Output ==> CmdBit(res, i) == Bit(b, op[i].bitno))
    && (forall k: nat | k < 8 :: HasOutput(op, k))
  }

  /** The byte in the reply is recovered exactly if the variable held no bit that the byte lacks;
      from a zero byte it always is. */
  lemma OutputRecovered(op: seq<OpBit>, res: seq<bv8>, data: bv8, b: bv8)
    requires ValidOp(op) && |res| == 4 && Carries(op, res, b)
    ensures OutputFirst(op, res, data, 32) == b <==> data | b == b
    ensures OutputFirst(op, res, 0, 32) == b
  {
    hide OutputFirst, CmdBit, Mask;
    OutputIsOr(op, res, data, b);
    OutputIsOr(op, res, 0, b);
    OrZero(b);
  }

  lemma OutputIsOr(op: seq<OpBit>, res: seq<bv8>, data: bv8, b: bv8)
    requires ValidOp(op) && |res| == 4 && Carries(op, res, b)
    ensures OutputFirst(op, res, data, 32) == data | b
  {
    hide OutputFirst, CmdBit, Bit, Mask;
    var out := OutputFirst(op, res, data, 32);
    forall k: nat | k < 8
      ensures Bit(out, k) == Bit(data | b, k)
    {
      OutputFirstBit(op, res, data, 32, k);
      OrBits(data, b, k);
      assert HasOutput(op, k);
      var i :| 0 <= i < 32 && op[i].kind == Output && op[i].bitno == k;
      assert CmdBit(res, i) == Bit(b, k);
    }
    BitsMakeByte(out, data | b);
  }

  lemma OrBits(d: bv8, b: bv8, k: nat)
    ensures Bit(d | b, k) <==> Bit(d, k) || Bit(b, k)
  {
    OrAnd(d, b, Mask(k));
  }

  lemma OrAnd(d: bv8, b: bv8, m: bv8)
    ensures (d | b) & m == (d & m) | (b & m)
    ensures (d & m) | (b & m) != 0 <==> d & m != 0 || b & m != 0
  {
  }
}
