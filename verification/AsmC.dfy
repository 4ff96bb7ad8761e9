/** The micro-op code generator of asm_c.js: which opcode slots an operation claims, and where
    its declared cycles go. */
module AsmC {
  import opened Words

  /** A JavaScript number as far as it matters here. */
  datatype Num = NaN | Int(i: int)

  function Plus(a: Num, b: Num): Num {
    if a.Int? && b.Int? then Int(a.i + b.i) else NaN
  }

  function Minus(a: Num, b: Num): Num {
    if a.Int? && b.Int? then Int(a.i - b.i) else NaN
  }

  /** Comparing NaN with anything is false. */
  predicate Negative(a: Num) { a.Int? && a.i < 0 }

  lemma PlusZero(a: Num)
    ensures Plus(a, Int(0)) == a
  {}

  lemma PlusZeroLeft(a: Num)
    ensures Plus(Int(0), a) == a
  {}

  lemma PlusPairs(a: Num, i: Num, b: Num, j: Num)
    ensures Plus(Plus(a, i), Plus(b, j)) == Plus(Plus(a, b), Plus(i, j))
    ensures Plus(Plus(i, a), b) == Plus(i, Plus(a, b))
  {}

  /** What the lines before the closing one cost, `count` up to `extra`, and what it asks for. */
  lemma Balance(declared: Num, count: Num, extra: Num)
    ensures var left := Minus(declared, Plus(Int(1), count));
      && (left.Int? <==> declared.Int? && count.Int?)
      && Plus(Plus(count, extra), left)
         == if declared.Int? && count.Int? then Plus(Int(declared.i - 1), extra) else NaN
  {}

  lemma PlusNotNegative(a: Num, b: Num)
    requires !Negative(a) && !Negative(b)
    ensures !Negative(Plus(a, b)) && (Plus(a, b) == Int(0) <==> a == Int(0) && b == Int(0))
  {}

  lemma PlusIsFirst(a: Num, b: Num)
    ensures a.Int? ==> (Plus(Int(a.i - 1), b) == Int(a.i - 1) <==> b == Int(0))
  {}

  /** The host's parseInt; radix 0 stands for none given. */
  type Host = (string, nat) -> Num

  /** The object ParseOperand returns; absent properties are None. */
  datatype Operand = Operand(reg: Option<string>, imm: Option<Num>, creg: Option<string>)

  const NO_OPERAND := Operand(None, None, None)

  predicate Digit(c: char) { '0' <= c <= '9' }

  /** A temporary, a hexadecimal or decimal immediate, or a register, told apart by the first
      characters. */
  function ParseOperand(str: Option<string>, parseInt: Host): Operand {
    match str
    case None => NO_OPERAND
    case Some(s) =>
      if |s| > 0 && s[0] == '$' then
        Operand(Some(s), None, Some("R_t" + (if |s| > 1 then [s[1]] else "")))
      else if |s| > 1 && s[0] == '0' && s[1] == 'x' then Operand(None, Some(parseInt(s, 16)), Some(s))
      else if |s| > 0 && (Digit(s[0]) || s[0] == '-') then Operand(None, Some(parseInt(s, 0)), Some(s))
      else Operand(Some(s), None, Some("R_" + s))
  }

  predicate Immediate(s: string) {
    |s| > 0 && (Digit(s[0]) || s[0] == '-')
  }

  /** The number an immediate stands for. */
  function Reads(s: string, parseInt: Host): Num {
    parseInt(s, if |s| > 1 && s[0] == '0' && s[1] == 'x' then 16 else 0)
  }

  /** An operand that is given is an immediate or a register, never both, and always has a text for
      the emitted line; the first character decides. */
  lemma OperandKinds(s: string, parseInt: Host)
    ensures var o := ParseOperand(Some(s), parseInt);
      && o.creg.Some? && (o.imm.Some? <==> Immediate(s)) && (o.reg.Some? <==> !Immediate(s))
      && (o.imm.Some? ==> o.imm == Some(Reads(s, parseInt)))
      && (o.imm.Some? ==> o.creg == Some(s)) && (o.reg.Some? ==> o.reg == Some(s))
      && (|s| > 1 && s[0] == '$' ==> o.creg == Some("R_t" + [s[1]]))
      && (!Immediate(s) && (s == "" || s[0] != '$') ==> o.creg == Some("R_" + s))
    ensures ParseOperand(None, parseInt) == NO_OPERAND
  {}

  /** A text that starts with 0x is read with radix 16, any other immediate without a radix. */
  lemma ImmediateIs(s: string, parseInt: Host)
    ensures ParseOperand(Some("0x" + s), parseInt) == Operand(None, Some(parseInt("0x" + s, 16)), Some("0x" + s))
    ensures Immediate(s) && !("0x" <= s) ==>
      ParseOperand(Some(s), parseInt) == Operand(None, Some(parseInt(s, 0)), Some(s))
  {
    assert |s| > 1 && s[0] == '0' && s[1] == 'x' ==> s[..2] == "0x";
  }

  /** The `inst` attribute. Arith is OR, AND, ADD, XOR, SUB, SHR or SHL, and Carry is ADC or SBC. */
  datatype Inst = SF | LM | LI | SM | MACRO | Arith(name: string) | NOT | PUSH | POP | Carry(name: string)
    | LR | LF | SR | CYCLE | Other(name: string)

  function InstOf(s: string): Inst {
    if s == "SF" then SF else if s == "LM" then LM else if s == "LI" then LI else if s == "SM" then SM
    else if s == "MACRO" then MACRO else if s == "NOT" then NOT else if s == "PUSH" then PUSH
    else if s == "POP" then POP else if s == "LR" then LR else if s == "LF" then LF else if s == "SR" then SR
    else if s == "CYCLE" then CYCLE
    else if s == "ADC" || s == "SBC" then Carry(s)
    else if s in {"OR", "AND", "ADD", "XOR", "SUB", "SHR", "SHL"} then Arith(s)
    else Other(s)
  }

  datatype Uop = Uop(inst: Inst, size: Option<Num>, dest: Operand, src: Operand)

  /** A child node of an operation: the texts of its attributes. */
  datatype UopNode = UopNode(inst: string, size: Option<string>, dest: Option<string>, src: Option<string>)

  function Decode(n: UopNode, parseInt: Host): Uop {
    Uop(InstOf(n.inst), if n.size.Some? then Some(parseInt(n.size.value, 0)) else None,
        ParseOperand(n.dest, parseInt), ParseOperand(n.src, parseInt))
  }

  function DecodeAll(ns: seq<UopNode>, parseInt: Host): (us: seq<Uop>)
    ensures |us| == |ns|
  {
    seq(|ns|, i requires 0 <= i < |ns| => Decode(ns[i], parseInt))
  }

  /** Every `inst` text stands for its own micro-op, and any other text for itself. */
  lemma InstNames(s: string)
    ensures (InstOf(s).SF? <==> s == "SF") && (InstOf(s).LM? <==> s == "LM") && (InstOf(s).LI? <==> s == "LI")
    ensures (InstOf(s).SM? <==> s == "SM") && (InstOf(s).MACRO? <==> s == "MACRO") && (InstOf(s).NOT? <==> s == "NOT")
    ensures (InstOf(s).PUSH? <==> s == "PUSH") && (InstOf(s).POP? <==> s == "POP") && (InstOf(s).LR? <==> s == "LR")
    ensures (InstOf(s).LF? <==> s == "LF") && (InstOf(s).SR? <==> s == "SR") && (InstOf(s).CYCLE? <==> s == "CYCLE")
    ensures InstOf(s).Carry? <==> s == "ADC" || s == "SBC"
    ensures InstOf(s).Arith? <==> s in {"OR", "AND", "ADD", "XOR", "SUB", "SHR", "SHL"}
    ensures InstOf(s).Carry? || InstOf(s).Arith? || InstOf(s).Other? ==> InstOf(s).name == s
  {}

  /** The attributes of a node as the micro-op's own; the size is read without a radix. */
  lemma DecodeIs(inst: string, size: Option<string>, dest: Option<string>, src: Option<string>, parseInt: Host)
    ensures var u := Decode(UopNode(inst, size, dest, src), parseInt);
      && u.inst == InstOf(inst) && u.dest == ParseOperand(dest, parseInt) && u.src == ParseOperand(src, parseInt)
      && (u.size.Some? <==> size.Some?) && (size.Some? ==> u.size.value == parseInt(size.value, 0))
  {
    hide ParseOperand, InstOf;
  }

  lemma DecodeAt(ns: seq<UopNode>, parseInt: Host, j: nat)
    requires j < |ns|
    ensures DecodeAll(ns, parseInt)[j] == Decode(ns[j], parseInt)
  {}

  /** An emitted line: an opcode label, a memory access with its bit size, cycles, one of the other
      macros the generator knows, the text of an unknown `inst` with its operand, or a complaint. All
      but the last two stand behind the prefix "SNCPU_". */
  datatype Line =
    | OpLabel(opcode: nat)
    | Mem(kind: string, size: Option<Num>, args: seq<string>)
    | SubCycles(n: Num)
    | EndOp(n: Num)
    | Macro(name: string, args: seq<string>)
    | Raw(text: string, dest: Operand)
    | Note(text: string)

  // ---- texts ----

  /** A property of an operand in a line; the host writes "undefined" for an absent one. */
  function Js(text: Option<string>): string {
    if text.Some? then text.value else "undefined"
  }

  function NatText(n: nat): string {
    if n < 10 then ['0' + n as char] else NatText(n / 10) + ['0' + (n % 10) as char]
  }

  function NumText(n: Num): string {
    match n
    case NaN => "NaN"
    case Int(i) => if i < 0 then "-" + NatText(-i) else NatText(i)
  }

  /** A size in a line; an absent attribute is null. */
  function SizeText(size: Option<Num>): string {
    if size.Some? then NumText(size.value) else "null"
  }

  /** `(size ? size : "")` */
  function SizeSuffix(size: Option<Num>): string {
    if Truthy(size) then SizeText(size) else ""
  }

  /** Neither absent nor 0 nor NaN. */
  predicate Truthy(n: Option<Num>) { n.Some? && n.value.Int? && n.value.i != 0 }

  lemma OperandTexts(text: string)
    ensures Js(Some(text)) == text && Js(None) == "undefined"
    ensures SizeText(None) == "null" && SizeText(Some(NaN)) == "NaN"
    ensures SizeSuffix(None) == "" && SizeSuffix(Some(NaN)) == "" && SizeSuffix(Some(Int(0))) == ""
  {
    hide NatText;
  }

  /** A size is written in decimal, and left out of a name when it is 0. */
  lemma SizeTexts(i: int)
    ensures i >= 0 ==> SizeText(Some(Int(i))) == NatText(i)
    ensures i < 0 ==> SizeText(Some(Int(i))) == "-" + NatText(-i)
    ensures i != 0 ==> SizeSuffix(Some(Int(i))) == SizeText(Some(Int(i)))
  {
    hide NatText;
  }

  /** Bytes of a size that is a number of bits. */
  function Bytes(size: Option<Num>): nat {
    if size.Some? && size.value.Int? && size.value.i > 0 then size.value.i / 8 else 0
  }

  // ---- lines of unknown micro-ops ----

  predicate Digits(s: string) { forall i :: 0 <= i < |s| ==> Digit(s[i]) }

  function Decimal(s: string): nat
    requires Digits(s)
  {
    if s == "" then 0 else 10 * Decimal(s[..|s| - 1]) + (s[|s| - 1] - '0') as nat
  }

  lemma DecimalSnoc(t: string, c: char)
    requires Digits(t) && Digit(c)
    ensures Digits(t + [c]) && Decimal(t + [c]) == 10 * Decimal(t) + (c - '0') as nat
  {
    hide Digit;
    assert (t + [c])[..|t|] == t;
  }

  /** A number written in decimal reads as itself, without a leading zero. */
  lemma {:induction false} DecimalText(n: nat)
    ensures NatText(n) != "" && Digits(NatText(n)) && Decimal(NatText(n)) == n
    ensures n > 0 ==> NatText(n)[0] != '0'
  {
    if n < 10 {
      DecimalSnoc("", '0' + n as char);
      assert [] + ['0' + n as char] == NatText(n);
    } else {
      DecimalText(n / 10);
      DecimalSnoc(NatText(n / 10), '0' + (n % 10) as char);
    }
  }

  /** The bits in a name made of `kind` and a size. */
  function SizedBits(text: string, kind: string): nat {
    if kind < text && text[|kind|] != '0' && Digits(text[|kind|..]) then Decimal(text[|kind|..]) else 0
  }

  const KINDS: seq<string> := ["SNCPU_READ", "SNCPU_WRITE", "SNCPU_FETCH", "SNCPU_PUSH", "SNCPU_POP"]

  /** The bits in the name of a memory macro. */
  function MemoryBits(text: string, kinds: seq<string>): nat {
    if kinds == [] then 0
    else if SizedBits(text, kinds[0]) > 0 then SizedBits(text, kinds[0])
    else MemoryBits(text, kinds[1..])
  }

  /** Macros that take the cycles their argument says. */
  const COUNTERS := {"SNCPU_SUBCYCLES", "SNCPU_ENDOP"}

  /** Macros whose cycles are only known when the program runs. */
  const VARIABLE := {"SNCPU_SUBCYCLESSLOW", "SNCPU_SUBMEMCYCLES", "SNCPU_BRREL"}

  /** Cycles of a line that is the text of an unknown `inst`: such a text may be the name of a macro
      that takes cycles. */
  function RawCost(text: string, dest: Operand): Num {
    if text in COUNTERS then (if dest.imm.Some? then dest.imm.value else NaN)
    else if text in VARIABLE then NaN
    else Int(MemoryBits(text, KINDS) / 8)
  }

  /** Cycles a line accounts for: one per byte accessed, or what it says. */
  function Cost(l: Line): Num {
    match l
    case Mem(_, size, _) => Int(Bytes(size))
    case SubCycles(n) => n
    case EndOp(n) => n
    case Raw(text, dest) => RawCost(text, dest)
    case _ => Int(0)
  }

  function Total(ls: seq<Line>): Num {
    if ls == [] then Int(0) else Plus(Total(ls[..|ls| - 1]), Cost(ls[|ls| - 1]))
  }

  /** What one micro-op emits and adds to `memreads`. */
  datatype Emitted = Error | Emitted(lines: seq<Line>, counted: Num)

  predicate ByteSize(size: Option<Num>, sizes: set<int>) {
    size.Some? && size.value.Int? && size.value.i in sizes
  }

  function FlagMacro(u: Uop): (r: Option<Line>)
    ensures r.Some? ==> r.value.Macro?
  {
    hide Truthy, SizeText;
    var d, s := u.dest, u.src;
    match d.reg
    case Some("I") => Some(Macro(if Truthy(s.imm) then "SETFLAG_I" else "CLRFLAG_I", []))
    case Some("D") => Some(Macro(if Truthy(s.imm) then "SETFLAG_D" else "CLRFLAG_D", []))
    case Some("V") => Some(Macro(if s.imm.Some? then "SETFLAGI_V" else "SETFLAG_V", [Js(s.creg)]))
    case Some("E") => Some(Macro("SETFLAG_E", [Js(s.creg)]))
    case Some("C") => Some(Macro(if s.imm.Some? then "SETFLAGI_C" else "SETFLAG_C", [Js(s.creg)]))
    case Some("Z") =>
      if s.imm.None? && Truthy(u.size) then Some(Macro("SETFLAG_Z" + SizeText(u.size), [Js(s.creg)])) else None
    case Some("N") =>
      if s.imm.None? && Truthy(u.size) then Some(Macro("SETFLAG_N" + SizeText(u.size), [Js(s.creg)])) else None
    case _ => None
  }

  function Access(kind: string, u: Uop, args: seq<string>, sizes: set<int>): Emitted {
    if ByteSize(u.size, sizes) then Emitted([Mem(kind, u.size, args)], Int(Bytes(u.size)))
    else Emitted([], Int(0))
  }

  /** PUSH and POP are emitted whatever their size, but only the three usual sizes are counted. */
  function Stack(kind: string, u: Uop): Emitted {
    Emitted([Mem(kind, u.size, [Js(u.dest.creg)])],
            if ByteSize(u.size, {8, 16, 24}) then Int(Bytes(u.size)) else Int(0))
  }

  const SETTABLE := {"S", "X", "Y", "A", "DP", "DB", "P", "PC"}

  /** The line of a micro-op that is one macro, unless the generator rejects it. */
  function MacroOf(u: Uop): (r: Option<Line>)
    ensures r.Some? ==> r.value.Macro?
  {
    var d, s := u.dest, u.src;
    match u.inst
    case SF => FlagMacro(u)
    case Arith(op) => Some(Macro(if s.imm.Some? then op + "I" else op, [Js(d.creg), Js(s.creg)]))
    case NOT => Some(Macro("NOT" + SizeText(u.size), [Js(d.creg)]))
    case Carry(op) => Some(Macro(op + SizeText(u.size), [Js(d.creg), Js(s.creg)]))
    case LR =>
      Some(if s.imm.Some? then Macro("GETI", [Js(d.creg), NumText(s.imm.value)])
           else Macro("GET_" + Js(s.reg) + SizeSuffix(u.size), [Js(d.creg)]))
    case LF => Some(Macro("GETFLAG_" + Js(s.reg), [Js(d.creg)]))
    case SR =>
      if d.reg.Some? && d.reg.value in SETTABLE
      then Some(Macro("SET_" + d.reg.value + SizeSuffix(u.size), [Js(s.creg)])) else None
    case _ => None
  }

  function EmitUop(u: Uop): Emitted {
    var d, s := u.dest, u.src;
    match u.inst
    case LM => Access("READ", u, [Js(s.creg), Js(d.creg)], {8, 16, 24})
    case LI => Access("FETCH", u, [Js(d.creg)], {8, 16, 24})
    case SM => Access("WRITE", u, [Js(d.creg), Js(s.creg)], {8, 16})
    case MACRO => Emitted([], Int(0))
    case PUSH => Stack("PUSH", u)
    case POP => Stack("POP", u)
    case CYCLE =>
      var n := if d.imm.Some? then d.imm.value else NaN;
      Emitted([SubCycles(n)], n)
    case Other(text) => Emitted([Raw(text, d)], Int(0))
    case _ =>
      match MacroOf(u)
      case None => Error
      case Some(line) => Emitted([line], Int(0))
  }

  // ---- what one micro-op emits ----

  /** Reads and writes name address and data in the order of their macros, with one cycle a byte for
      the sizes listed; of any other size nothing is emitted. A stack access is always emitted. */
  lemma MemoryLines(u: Uop)
    ensures var e, d, s := EmitUop(u), Js(u.dest.creg), Js(u.src.creg);
      var listed, bytes := u.size in {Some(Int(8)), Some(Int(16)), Some(Int(24))},
                           if u.size.Some? && u.size.value.Int? then u.size.value.i / 8 else 0;
      && (u.inst.LM? ==> e == if listed then Emitted([Mem("READ", u.size, [s, d])], Int(bytes)) else Emitted([], Int(0)))
      && (u.inst.LI? ==> e == if listed then Emitted([Mem("FETCH", u.size, [d])], Int(bytes)) else Emitted([], Int(0)))
      && (u.inst.SM? ==> e == if listed && u.size != Some(Int(24))
                              then Emitted([Mem("WRITE", u.size, [d, s])], Int(bytes)) else Emitted([], Int(0)))
      && (u.inst.PUSH? ==> e == Emitted([Mem("PUSH", u.size, [d])], Int(if listed then bytes else 0)))
      && (u.inst.POP? ==> e == Emitted([Mem("POP", u.size, [d])], Int(if listed then bytes else 0)))
  {
    hide Js, MacroOf;
  }

  /** Cycles as they stand, nothing for MACRO, and an unknown `inst` as it stands. */
  lemma PlainLines(u: Uop)
    ensures u.inst.CYCLE? ==>
      EmitUop(u) == if u.dest.imm.Some? then Emitted([SubCycles(u.dest.imm.value)], u.dest.imm.value)
                    else Emitted([SubCycles(NaN)], NaN)
    ensures u.inst.MACRO? ==> EmitUop(u) == Emitted([], Int(0))
    ensures u.inst.Other? ==> EmitUop(u) == Emitted([Raw(u.inst.name, u.dest)], Int(0))
  {
    hide MacroOf;
  }

  /** Arithmetic is one macro of that name on destination and source, with an I for an immediate. */
  lemma ArithmeticLines(u: Uop)
    ensures var e, d, s := EmitUop(u), Js(u.dest.creg), Js(u.src.creg);
      && (u.inst.Arith? && u.src.imm.None? ==> e == Emitted([Macro(u.inst.name, [d, s])], Int(0)))
      && (u.inst.Arith? && u.src.imm.Some? ==> e == Emitted([Macro(u.inst.name + "I", [d, s])], Int(0)))
      && (u.inst.NOT? ==> e == Emitted([Macro("NOT" + SizeText(u.size), [d])], Int(0)))
      && (u.inst.Carry? ==> e == Emitted([Macro(u.inst.name + SizeText(u.size), [d, s])], Int(0)))
  {
    hide Js, SizeText;
  }

  /** Loads of immediates, registers and flags, and stores to registers; a register that cannot be
      stored to stops the generator. */
  lemma RegisterLines(u: Uop)
    ensures var e, d, s := EmitUop(u), Js(u.dest.creg), Js(u.src.creg);
      && (u.inst.LR? && u.src.imm.Some? ==> e == Emitted([Macro("GETI", [d, NumText(u.src.imm.value)])], Int(0)))
      && (u.inst.LR? && u.src.imm.None? ==>
            e == Emitted([Macro("GET_" + Js(u.src.reg) + SizeSuffix(u.size), [d])], Int(0)))
      && (u.inst.LF? ==> e == Emitted([Macro("GETFLAG_" + Js(u.src.reg), [d])], Int(0)))
      && (u.inst.SR? ==> e == if u.dest.reg.Some? && u.dest.reg.value in {"S", "X", "Y", "A", "DP", "DB", "P", "PC"}
                              then Emitted([Macro("SET_" + u.dest.reg.value + SizeSuffix(u.size), [s])], Int(0))
                              else Error)
  {
    hide Js, SizeSuffix, NumText;
  }

  /** I and D are set or cleared by the immediate, the other flags are given the source; Z and N need
      a size and no immediate, and any other flag stops the generator. */
  lemma FlagLines(u: Uop)
    requires u.inst.SF?
    ensures var e, s, f := EmitUop(u), Js(u.src.creg), u.dest.reg;
      && (f == Some("I") ==> e == Emitted([Macro(if Truthy(u.src.imm) then "SETFLAG_I" else "CLRFLAG_I", [])], Int(0)))
      && (f == Some("D") ==> e == Emitted([Macro(if Truthy(u.src.imm) then "SETFLAG_D" else "CLRFLAG_D", [])], Int(0)))
      && (f == Some("V") ==> e == Emitted([Macro(if u.src.imm.Some? then "SETFLAGI_V" else "SETFLAG_V", [s])], Int(0)))
      && (f == Some("C") ==> e == Emitted([Macro(if u.src.imm.Some? then "SETFLAGI_C" else "SETFLAG_C", [s])], Int(0)))
      && (f == Some("E") ==> e == Emitted([Macro("SETFLAG_E", [s])], Int(0)))
      && (f == Some("Z") ==> e == if u.src.imm.None? && Truthy(u.size)
                               then Emitted([Macro("SETFLAG_Z" + SizeText(u.size), [s])], Int(0)) else Error)
      && (f == Some("N") ==> e == if u.src.imm.None? && Truthy(u.size)
                               then Emitted([Macro("SETFLAG_N" + SizeText(u.size), [s])], Int(0)) else Error)
      && (f !in {Some("I"), Some("D"), Some("V"), Some("C"), Some("E"), Some("Z"), Some("N")} ==> e == Error)
  {
    hide Js, SizeText, Truthy;
  }

  lemma TruthyIs(i: int)
    ensures Truthy(Some(Int(i))) <==> i != 0
    ensures !Truthy(None) && !Truthy(Some(NaN))
  {}

  /** An accepted micro-op is exactly one line, but for MACRO and reads and writes of unlisted size. */
  lemma OneLine(u: Uop)
    requires EmitUop(u).Emitted?
    ensures |EmitUop(u).lines| == if u.inst.MACRO? then 0
      else if u.inst.LM? || u.inst.LI? then (if u.size in {Some(Int(8)), Some(Int(16)), Some(Int(24))} then 1 else 0)
      else if u.inst.SM? then (if u.size in {Some(Int(8)), Some(Int(16))} then 1 else 0)
      else 1
  {
    hide MacroOf, Js;
  }

  /** What the generator does not count: stack accesses of unusual size, and macros that take cycles
      under the name of an unknown micro-op. */
  function UncountedOf(u: Uop): Num {
    match u.inst
    case PUSH => Int(if ByteSize(u.size, {8, 16, 24}) then 0 else Bytes(u.size))
    case POP => Int(if ByteSize(u.size, {8, 16, 24}) then 0 else Bytes(u.size))
    case Other(text) => RawCost(text, u.dest)
    case _ => Int(0)
  }

  function Uncounted(us: seq<Uop>): Num {
    if us == [] then Int(0) else Plus(Uncounted(us[..|us| - 1]), UncountedOf(us[|us| - 1]))
  }

  function CountedOf(u: Uop): Num {
    match EmitUop(u)
    case Error => Int(0)
    case Emitted(_, n) => n
  }

  /** What the generator adds to its count over a list of micro-ops. */
  function Counted(us: seq<Uop>): Num {
    if us == [] then Int(0) else Plus(Counted(us[..|us| - 1]), CountedOf(us[|us| - 1]))
  }

  predicate IsNumeric(u: Uop) {
    u.inst.CYCLE? ==> u.dest.imm.Some? && u.dest.imm.value.Int?
  }

  /** Every CYCLE micro-op names a number. */
  ghost predicate Numeric(us: seq<Uop>) {
    forall i :: 0 <= i < |us| ==> IsNumeric(us[i])
  }

  predicate UsualSize(size: Option<Num>) {
    size.Some? && size.value.Int? ==> size.value.i < 8 || size.value.i == 8 || size.value.i == 16 || size.value.i == 24
  }

  /** Not the name of a macro that takes cycles, unless it is told to take none. */
  predicate Quiet(text: string, dest: Operand) {
    if text in COUNTERS then dest.imm == Some(Int(0))
    else text !in VARIABLE && MemoryBits(text, KINDS) < 8
  }

  predicate IsUsual(u: Uop) {
    match u.inst
    case PUSH => UsualSize(u.size)
    case POP => UsualSize(u.size)
    case Other(text) => Quiet(text, u.dest)
    case _ => true
  }

  /** Every PUSH and POP has one, two or three bytes, or no whole one, and no unknown micro-op names
      a macro that takes cycles. */
  ghost predicate Usual(us: seq<Uop>) {
    forall i :: 0 <= i < |us| ==> IsUsual(us[i])
  }

  /** No unknown micro-op gives cycles back. */
  ghost predicate NothingGivenBack(us: seq<Uop>) {
    forall i :: 0 <= i < |us| ==> !Negative(UncountedOf(us[i]))
  }

  /** The generator stops at one of these. */
  ghost predicate Faulty(us: seq<Uop>) {
    exists i :: 0 <= i < |us| && EmitUop(us[i]).Error?
  }

  lemma OnlyCycleIsNaN(u: Uop)
    ensures CountedOf(u).Int? <==> IsNumeric(u)
  {
    hide MacroOf, ByteSize, Bytes;
  }

  /** A CYCLE without a number spoils the count, and nothing else does. */
  lemma {:induction false} CountedIsNumber(us: seq<Uop>)
    ensures Counted(us).Int? <==> Numeric(us)
  {
    hide CountedOf, IsNumeric;
    if us != [] {
      var n := |us| - 1;
      CountedIsNumber(us[..n]);
      assert us == us[..n] + [us[n]];
      OnlyCycleIsNaN(us[n]);
    }
  }

  lemma UsualIff(u: Uop)
    ensures UncountedOf(u) == Int(0) <==> IsUsual(u)
  {
    hide MemoryBits;
  }

  /** After every micro-op the lines so far cost what is counted so far, if and only if every
      micro-op is usual. */
  lemma {:induction false} UncountedIff(us: seq<Uop>)
    ensures (forall j :: 0 <= j <= |us| ==> Uncounted(us[..j]) == Int(0)) <==> Usual(us)
  {
    hide UncountedOf, IsUsual, Plus;
    if us == [] {
      assert us[..0] == [];
    } else {
      var n := |us| - 1;
      UncountedIff(us[..n]);
      UsualIff(us[n]);
      PlusZeroLeft(UncountedOf(us[n]));
      SumsSnoc(us, n);
      assert us == us[..n] + [us[n]] && us[..n + 1] == us;
      assert forall j :: 0 <= j <= n ==> us[..n][..j] == us[..j];
    }
  }

  /** Over the whole list, what is not counted cannot cancel unless cycles are given back. */
  lemma {:induction false} UncountedWhole(us: seq<Uop>)
    requires NothingGivenBack(us)
    ensures !Negative(Uncounted(us)) && (Uncounted(us) == Int(0) <==> Usual(us))
  {
    hide UncountedOf, IsUsual, Plus;
    if us != [] {
      var n := |us| - 1;
      UncountedWhole(us[..n]);
      PlusNotNegative(Uncounted(us[..n]), UncountedOf(us[n]));
      UsualIff(us[n]);
      assert us == us[..n] + [us[n]];
    }
  }

  /** On attribute texts: the CYCLEs that spoil the count are those whose operand is missing, is a
      register or does not read as a number. */
  lemma CycleText(n: UopNode, parseInt: Host)
    ensures IsNumeric(Decode(n, parseInt)) <==>
      (n.inst == "CYCLE" ==> n.dest.Some? && Immediate(n.dest.value) && Reads(n.dest.value, parseInt).Int?)
  {
    hide InstOf, ParseOperand, Reads, Immediate;
    InstNames(n.inst);
    OperandKinds(if n.dest.Some? then n.dest.value else "", parseInt);
  }

  /** A CYCLE that names no number is emitted all the same, and the count is lost. */
  lemma NoNumber(parseInt: Host, src: Option<string>)
    ensures var u := Decode(UopNode("CYCLE", None, None, src), parseInt);
      EmitUop(u) == Emitted([SubCycles(NaN)], NaN) && !Numeric([u])
  {
    hide ParseOperand;
    OperandKinds("", parseInt);
    var u := Decode(UopNode("CYCLE", None, None, src), parseInt);
    assert !IsNumeric([u][0]);
  }

  /** Of a PUSH of 32 bits four bytes are not counted. */
  lemma WidePush(parseInt: Host, dest: Option<string>, src: Option<string>)
    requires parseInt("32", 0) == Int(32)
    ensures var u := Decode(UopNode("PUSH", Some("32"), dest, src), parseInt);
      EmitUop(u).Emitted? && CountedOf(u) == Int(0) && UncountedOf(u) == Int(4) && Numeric([u]) && !Usual([u])
  {
    hide ParseOperand;
    var u := Decode(UopNode("PUSH", Some("32"), dest, src), parseInt);
    assert !IsUsual([u][0]);
  }

  /** A fetch written by its macro name is emitted as it stands, and its byte is not counted. */
  lemma RawFetch(parseInt: Host, dest: Option<string>, src: Option<string>)
    ensures var u := Decode(UopNode("SNCPU_FETCH8", None, dest, src), parseInt);
      && EmitUop(u) == Emitted([Raw("SNCPU_FETCH8", u.dest)], Int(0))
      && UncountedOf(u) == Int(1) && Numeric([u]) && !Usual([u])
  {
    hide ParseOperand, MemoryBits;
    FetchBits();
    var u := Decode(UopNode("SNCPU_FETCH8", None, dest, src), parseInt);
    assert u.inst == Other("SNCPU_FETCH8");
    assert !IsUsual([u][0]);
  }

  /** What the macros that take cycles cost when they are written by name. */
  lemma RawCosts(dest: Operand)
    ensures RawCost("SNCPU_SUBCYCLES", dest) == (if dest.imm.Some? then dest.imm.value else NaN)
    ensures RawCost("SNCPU_ENDOP", dest) == (if dest.imm.Some? then dest.imm.value else NaN)
    ensures RawCost("SNCPU_SUBCYCLESSLOW", dest) == NaN && RawCost("SNCPU_SUBMEMCYCLES", dest) == NaN
    ensures RawCost("SNCPU_BRREL", dest) == NaN
  {
    hide MemoryBits;
  }

  /** A kind of access with a size behind it names that many bits. */
  lemma MemoryNames(kind: string, bits: nat)
    requires bits > 0 && kind in ["SNCPU_READ", "SNCPU_WRITE", "SNCPU_FETCH", "SNCPU_PUSH", "SNCPU_POP"]
    ensures MemoryBits(kind + NatText(bits), KINDS) == bits
  {
    hide NatText, Decimal, Digits;
    var t, n := kind + NatText(bits), |kind|;
    DecimalText(bits);
    assert t[n..] == NatText(bits) && t[..n] == kind && t[n] == NatText(bits)[0];
    assert SizedBits(t, kind) == bits;
    NameStarts(kind, t);
  }

  lemma Apart(a: string, b: string, t: string)
    requires a in KINDS && b in KINDS && a <= t && b <= t
    ensures a == b
  {
    assert a[6] == t[6] == b[6] && a[7] == t[7] == b[7];
  }

  lemma NameStarts(kind: string, t: string)
    requires kind in KINDS && kind <= t
    requires SizedBits(t, kind) > 0
    ensures MemoryBits(t, KINDS) == SizedBits(t, kind)
  {
    hide Decimal, Digits;
    forall other | other in KINDS && other != kind ensures SizedBits(t, other) == 0 {
      if other < t {
        Apart(kind, other, t);
        assert false;
      }
    }
    BitsAmong(t, KINDS, kind);
  }

  lemma {:induction false} BitsAmong(t: string, kinds: seq<string>, kind: string)
    requires kind in kinds && SizedBits(t, kind) > 0
    requires forall other :: other in kinds && other != kind ==> SizedBits(t, other) == 0
    ensures MemoryBits(t, kinds) == SizedBits(t, kind)
  {
    hide SizedBits;
    if kinds[0] != kind {
      assert kind in kinds[1..];
      BitsAmong(t, kinds[1..], kind);
    }
  }

  lemma FetchBits()
    ensures MemoryBits("SNCPU_FETCH8", KINDS) == 8
  {
    var t := "SNCPU_FETCH8";
    assert t[6] == 'F' && KINDS[0][6] == 'R' && KINDS[1][6] == 'W';
    assert SizedBits(t, KINDS[0]) == 0 && SizedBits(t, KINDS[1]) == 0;
    assert t[11..] == "8" && t[..11] == "SNCPU_FETCH";
    assert Decimal("8") == 8;
    assert SizedBits(t, KINDS[2]) == 8;
    assert KINDS[1..][0] == KINDS[1] && KINDS[1..][1..][0] == KINDS[2];
  }

  lemma {:induction false} TotalAppend(a: seq<Line>, b: seq<Line>)
    ensures Total(a + b) == Plus(Total(a), Total(b))
  {
    if b == [] {
      assert a + b == a;
      PlusZero(Total(a));
    } else {
      assert (a + b)[..|a + b| - 1] == a + b[..|b| - 1];
      TotalAppend(a, b[..|b| - 1]);
    }
  }

  lemma TotalSnoc(a: seq<Line>, l: Line)
    ensures l.OpLabel? ==> Total(a + [l]) == Total(a)
    ensures l.EndOp? ==> Total(a + [l]) == Plus(Total(a), l.n)
  {
    assert (a + [l])[..|a|] == a;
  }

  lemma SumsNone()
    ensures Counted([]) == Int(0) && Uncounted([]) == Int(0) && LinesOf([]) == []
  {}

  lemma SumsSnoc(us: seq<Uop>, j: nat)
    requires j < |us|
    ensures Counted(us[..j + 1]) == Plus(Counted(us[..j]), CountedOf(us[j]))
    ensures Uncounted(us[..j + 1]) == Plus(Uncounted(us[..j]), UncountedOf(us[j]))
  {
    hide CountedOf, UncountedOf;
    assert us[..j + 1][..j] == us[..j];
  }

  /** The lines of a list of micro-ops, one after the other. */
  function LinesOf(us: seq<Uop>): seq<Line> {
    if us == [] then []
    else LinesOf(us[..|us| - 1]) + (if EmitUop(us[|us| - 1]).Emitted? then EmitUop(us[|us| - 1]).lines else [])
  }

  lemma LinesSnoc(us: seq<Uop>, j: nat)
    requires j < |us| && EmitUop(us[j]).Emitted?
    ensures LinesOf(us[..j + 1]) == LinesOf(us[..j]) + EmitUop(us[j]).lines
  {
    hide EmitUop;
    assert us[..j + 1][..j] == us[..j];
  }

  /** The generator stopped at entry `k`, the first faulty micro-op, or behind them all. */
  ghost predicate StoppedAt(us: seq<Uop>, k: nat) {
    && k <= |us| && (forall i :: 0 <= i < k ==> EmitUop(us[i]).Emitted?)
    && (k < |us| ==> EmitUop(us[k]).Error?)
  }

  lemma {:induction false} TotalOne(l: Line)
    ensures Total([l]) == Plus(Int(0), Cost(l))
  {
    hide Plus, Cost;
    assert [l][..0] == [];
  }

  /** One micro-op's lines cost what is added to `memreads`, up to what is not counted. */
  lemma UopCost(u: Uop)
    requires EmitUop(u).Emitted?
    ensures EmitUop(u).counted == CountedOf(u)
    ensures Total(EmitUop(u).lines) == Plus(CountedOf(u), UncountedOf(u))
  {
    hide Total, EmitUop, UncountedOf, Cost;
    var e := EmitUop(u);
    UopLines(u);
    if e.lines == [] {
      TotalNone();
    } else {
      assert e.lines == [e.lines[0]];
      TotalOne(e.lines[0]);
    }
  }

  lemma TotalNone()
    ensures Total([]) == Int(0)
  {}

  /** At most one line, which costs what is counted and `extra`. */
  ghost predicate Costs(e: Emitted, extra: Num) {
    e.Emitted? ==>
      && |e.lines| <= 1
      && (e.lines == [] ==> e.counted == Int(0) && extra == Int(0))
      && (|e.lines| == 1 ==> Cost(e.lines[0]) == Plus(e.counted, extra))
  }

  lemma AccessCosts(kind: string, u: Uop, args: seq<string>, sizes: set<int>)
    ensures Costs(Access(kind, u, args, sizes), Int(0))
  {
    hide ByteSize, Bytes, Plus;
    PlusZero(Int(Bytes(u.size)));
  }

  lemma StackCosts(kind: string, u: Uop)
    requires u.inst.PUSH? || u.inst.POP?
    ensures Costs(Stack(kind, u), UncountedOf(u))
  {
    hide Bytes, Plus;
    PlusZero(Int(Bytes(u.size)));
    PlusZeroLeft(Int(Bytes(u.size)));
  }

  lemma UopLines(u: Uop)
    ensures Costs(EmitUop(u), UncountedOf(u))
  {
    hide MacroOf, Access, Stack, ByteSize, Bytes, Plus, RawCost;
    PlusZero(Int(0));
    match u.inst {
      case LM => AccessCosts("READ", u, [Js(u.src.creg), Js(u.dest.creg)], {8, 16, 24});
      case LI => AccessCosts("FETCH", u, [Js(u.dest.creg)], {8, 16, 24});
      case SM => AccessCosts("WRITE", u, [Js(u.dest.creg), Js(u.src.creg)], {8, 16});
      case PUSH => StackCosts("PUSH", u);
      case POP => StackCosts("POP", u);
      case CYCLE => PlusZero(EmitUop(u).counted);
      case Other(text) => PlusZeroLeft(RawCost(text, u.dest));
      case _ =>
    }
  }

  // ---- opcode slots ----

  /** The processor modes behind the five slots of an opcode: bit 0 is the x flag, bit 1 the m
      flag, and slot 4 is emulation mode, where both are set. */
  predicate ModeX(slot: nat) { slot == 4 || slot % 2 == 1 }

  predicate ModeM(slot: nat) { slot == 4 || slot / 2 == 1 }

  /** The slots an operation claims, from its e, x and m attributes. */
  function Slots(e: Option<int>, x: Option<int>, m: Option<int>): seq<nat> {
    if e == Some(1) then [4]
    else if e == Some(0) then [0, 1, 2, 3]
    else if x == Some(0) then
      (if m == Some(0) then [0] else if m == Some(1) then [2] else [0, 2])
    else if x == Some(1) then
      (if m == Some(0) then [1] else if m == Some(1) then [3, 4] else [1, 3, 4])
    else if m == Some(0) then [0, 1]
    else if m == Some(1) then [2, 3, 4]
    else [0, 1, 2, 3, 4]
  }

  predicate Flag(a: Option<int>) { a.None? || a == Some(0) || a == Some(1) }

  /** No slot is claimed twice. */
  lemma SlotsInOrder(e: Option<int>, x: Option<int>, m: Option<int>)
    ensures var s := Slots(e, x, m); forall i, j :: 0 <= i < j < |s| ==> s[i] < s[j]
  {}

  /** Exactly the modes that agree with the given attributes are claimed; an operation restricted
      by e is emitted for all modes of that kind, whatever its x and m say. */
  lemma SlotsAreModes(e: Option<int>, x: Option<int>, m: Option<int>, slot: nat)
    requires Flag(e) && Flag(x) && Flag(m) && slot < 5
    ensures slot in Slots(e, x, m) <==>
      if e.Some? then (e.value == 1 <==> slot == 4)
      else (x.Some? ==> (ModeX(slot) <==> x.value == 1)) && (m.Some? ==> (ModeM(slot) <==> m.value == 1))
  {
    if e.None? {
      if x.None? { assert slot in [0, 1, 2, 3, 4]; }
    }
  }

  /** The index in the opcode table, `op | (opmod << 8)`. */
  function Opcode(op: nat, opmod: nat): nat {
    Or(op, opmod * 0x100)
  }

  /** For one-byte opcodes every slot of every opcode has its own entry. */
  lemma OpcodesApart(op: nat, opmod: nat, op': nat, opmod': nat)
    requires op < 0x100 && op' < 0x100
    ensures Opcode(op, opmod) == opmod * 0x100 + op
    ensures Opcode(op, opmod) == Opcode(op', opmod') ==> op == op' && opmod == opmod'
  {
    hide Or, Pow2;
    Pow2Values();
    OrDisjoint(op, opmod, 8);
    OrDisjoint(op', opmod', 8);
  }

  /** The entries of the opcode table that a list of slots stands for. */
  function Opcodes(code: nat, slots: seq<nat>): (s: set<nat>)
    ensures forall i :: 0 <= i < |slots| ==> Opcode(code, slots[i]) in s
  {
    hide Opcode;
    if slots == [] then {} else Opcodes(code, slots[..|slots| - 1]) + {Opcode(code, slots[|slots| - 1])}
  }

  function Labels(code: nat, slots: seq<nat>): (ls: seq<Line>)
    ensures |ls| == |slots| && forall i :: 0 <= i < |slots| ==> ls[i] == OpLabel(Opcode(code, slots[i]))
  {
    hide Opcode;
    seq(|slots|, i requires 0 <= i < |slots| => OpLabel(Opcode(code, slots[i])))
  }

  lemma LabelsSnoc(code: nat, slots: seq<nat>, k: nat)
    requires k < |slots|
    ensures Labels(code, slots[..k + 1]) == Labels(code, slots[..k]) + [OpLabel(Opcode(code, slots[k]))]
  {
    hide Opcode;
  }

  lemma LabelsNone(code: nat, slots: seq<nat>)
    ensures Labels(code, slots[..0]) == []
  {}

  lemma OpcodesNone(code: nat, slots: seq<nat>)
    ensures Opcodes(code, slots[..0]) == {}
  {}

  lemma OpcodesSnoc(code: nat, slots: seq<nat>, k: nat)
    requires k < |slots|
    ensures Opcodes(code, slots[..k + 1]) == Opcodes(code, slots[..k]) + {Opcode(code, slots[k])}
  {
    hide Opcode;
    assert slots[..k + 1][..k] == slots[..k];
  }

  /** An operation: its attributes as numbers, and its micro-ops. */
  datatype Op = Op(code: nat, cycles: Num, e: Option<int>, x: Option<int>, m: Option<int>, uops: seq<UopNode>)

  class Generator {
    const parseInt: Host
    var lines: seq<Line>
    var doneOps: set<nat>

    constructor (host: Host)
      ensures parseInt == host && lines == [] && doneOps == {}
    {
      parseInt, lines, doneOps := host, [], {};
    }

    method startop(op: nat, opmod: nat)
      modifies this
      ensures lines == old(lines) + [OpLabel(Opcode(op, opmod))]
      ensures doneOps == old(doneOps) + {Opcode(op, opmod)}
    {
      OrCommutes(op, opmod * 0x100);
      doneOps := doneOps + {Or(op, opmod * 0x100)};
      lines := lines + [OpLabel(Or(opmod * 0x100, op))];
    }

    /** Emits one operation. Generation stops if and only if a micro-op is faulty or more cycles are
        counted than declared. Otherwise the cycles of its lines, one for the opcode fetch included,
        come to the declared number plus what is not counted, and the closing line asks for a
        non-negative number; when some CYCLE or the declared number is not a number, neither is what
        the closing line asks for. */
    method assembleop(op: Op) returns (ok: bool)
      modifies this
      ensures old(lines) <= lines
      ensures doneOps == old(doneOps) + Opcodes(op.code, Slots(op.e, op.x, op.m))
      ensures var us := DecodeAll(op.uops, parseInt);
        ok <==> !Faulty(us) && !Negative(Minus(op.cycles, Plus(Int(1), Counted(us))))
      ensures var us, labels := DecodeAll(op.uops, parseInt), Labels(op.code, Slots(op.e, op.x, op.m));
        && (ok ==> lines == old(lines) + labels + LinesOf(us) + [EndOp(Minus(op.cycles, Plus(Int(1), Counted(us))))])
        && (!ok ==> exists k: nat ::
              && StoppedAt(us, k)
              && lines == old(lines) + labels + LinesOf(us[..k])
                          + (if k < |us| then [] else [Note("NEGATIVE CYCLES")]))
      ensures ok ==> var us := DecodeAll(op.uops, parseInt);
        && lines != [] && lines[|lines| - 1].EndOp? && !Negative(lines[|lines| - 1].n)
        && (lines[|lines| - 1].n.Int? <==> op.cycles.Int? && Numeric(us))
        && Total(lines[|old(lines)|..])
           == if op.cycles.Int? && Numeric(us) then Plus(Int(op.cycles.i - 1), Uncounted(us)) else NaN
      ensures ok ==> var us := DecodeAll(op.uops, parseInt);
        op.cycles.Int? && NothingGivenBack(us) ==>
          (Total(lines[|old(lines)|..]) == Int(op.cycles.i - 1) <==> Numeric(us) && Usual(us))
    {
      hide EmitUop, CountedOf, UncountedOf, Cost, Slots, Total, Numeric, Counted, Uncounted, Decode, DecodeAll,
        Usual, NothingGivenBack, Opcode, Opcodes, Plus, Minus, Labels, LinesOf;
      TotalNone();
      ghost var was, mine: seq<Line>, done := lines, [], doneOps;
      var slots := Slots(op.e, op.x, op.m);
      var k := 0;
      OpcodesNone(op.code, slots);
      LabelsNone(op.code, slots);
      while k < |slots|
        invariant 0 <= k <= |slots| && lines == was + mine && Total(mine) == Int(0)
        invariant doneOps == done + Opcodes(op.code, slots[..k]) && mine == Labels(op.code, slots[..k])
      {
        startop(op.code, slots[k]);
        TotalSnoc(mine, OpLabel(Opcode(op.code, slots[k])));
        mine := mine + [OpLabel(Opcode(op.code, slots[k]))];
        OpcodesSnoc(op.code, slots, k);
        LabelsSnoc(op.code, slots, k);
        k := k + 1;
      }
      assert slots[..k] == slots;
      ghost var us := DecodeAll(op.uops, parseInt);
      var memreads := Int(1);
      SumsNone();
      var j := 0;
      assert us[..0] == [];
      PlusZero(Int(1));
      PlusZero(Int(0));
      while j < |op.uops|
        invariant 0 <= j <= |op.uops| && lines == was + mine
        invariant doneOps == done + Opcodes(op.code, slots) && mine == Labels(op.code, slots) + LinesOf(us[..j])
        invariant forall i :: 0 <= i < j ==> EmitUop(us[i]).Emitted?
        invariant memreads == Plus(Int(1), Counted(us[..j]))
        invariant Total(mine) == Plus(Counted(us[..j]), Uncounted(us[..j]))
      {
        var u := Decode(op.uops[j], parseInt);
        DecodeAt(op.uops, parseInt, j);
        var e := EmitUop(u);
        if e.Error? {
          assert StoppedAt(us, j);
          return false;
        }
        UopCost(u);
        SumsSnoc(us, j);
        LinesSnoc(us, j);
        TotalAppend(mine, e.lines);
        PlusPairs(Counted(us[..j]), Uncounted(us[..j]), CountedOf(u), UncountedOf(u));
        PlusPairs(Counted(us[..j]), Int(1), CountedOf(u), Int(0));
        lines := lines + e.lines;
        mine := mine + e.lines;
        memreads := Plus(memreads, e.counted);
        j := j + 1;
      }
      assert us[..j] == us;
      var cycles := Minus(op.cycles, memreads);
      if Negative(cycles) {
        assert StoppedAt(us, j);
        lines := lines + [Note("NEGATIVE CYCLES")];
        return false;
      }
      Balance(op.cycles, Counted(us), Uncounted(us));
      TotalSnoc(mine, EndOp(cycles));
      lines := lines + [EndOp(cycles)];
      mine := mine + [EndOp(cycles)];
      assert lines[|was|..] == mine;
      CountedIsNumber(us);
      PlusIsFirst(op.cycles, Uncounted(us));
      if NothingGivenBack(us) {
        UncountedWhole(us);
      }
      ok := true;
    }
  }
}
