/** The lookup tables of the decoder, as a value: what is required of the generated ones. */
module Tables {

  datatype Kind =
    | OpcTable | Opc3dnow | OpcX87 | OpcMod | OpcMode | OpcSse | OpcReg | OpcRm | OpcVendor | OpcOsize | OpcAsize

  function Size(k: Kind): nat {
    match k
    case OpcTable => 256
    case Opc3dnow => 256
    case OpcX87 => 64
    case OpcMod => 2
    case OpcMode => 2
    case OpcSse => 4
    case OpcReg => 8
    case OpcRm => 8
    case OpcVendor => 3
    case OpcOsize => 3
    case OpcAsize => 3
  }

  /** A cell is the number of an instruction, or, with its top bit set, of another table. */
  datatype Table = Table(kind: Kind, cells: seq<nat>)

  predicate IsGroup(c: nat) { c >= 0x8000 }

  function Target(c: nat): nat
    requires IsGroup(c)
  {
    c - 0x8000
  }

  /** Operand codes, those treated alike as one. */
  datatype OpCode =
    | OP_NONE | OP_A | OP_MR | OP_F | OP_M | OP_E | OP_G | OP_I | OP_sI | OP_I1 | OP_N | OP_Q | OP_P | OP_U | OP_W
    | OP_V | OP_MU | OP_S | OP_O | OP_R(n: nat) | OP_ACD(n: nat) | OP_Seg(n: nat) | OP_J | OP_RM | OP_C | OP_D | OP_I3
    | OP_ST(n: nat)

  /** No entry has the mnemonic "3dnow", so the code's case for it is dead. */
  datatype Mnemonic = Mswapgs | Mxchg | Mnop | Mpause | Minvalid | Mother(id: nat)

  datatype EntryOperand = EntryOperand(code: OpCode, size: nat)

  /** rexMask is REX_PFX_MASK of the entry's flags. */
  datatype Entry = Entry(
    mnemonic: Mnemonic, op1: EntryOperand, op2: EntryOperand, op3: EntryOperand,
    inv64: bool, def64: bool, seg: bool, str: bool, rexMask: nat)

  /** level[i] says how deep an opcode table lies below table 0. */
  datatype Map = Map(tables: seq<Table>, entries: seq<Entry>, level: seq<nat>)

  /** What one cell must satisfy: references go to higher tables; x87 tables are reached through
      slot 1 of a mod table only, opcode tables through opcode tables only, at most two below
      the first; a 3dnow table has no groups. */
  predicate CellOk(m: Map, i: nat, j: nat)
    requires |m.level| == |m.tables| && i < |m.tables| && j < |m.tables[i].cells|
  {
    var t, c := m.tables[i], m.tables[i].cells[j];
    if !IsGroup(c) then c < |m.entries|
    else
      && i < Target(c) < |m.tables| && t.kind != Opc3dnow
      && var u := m.tables[Target(c)];
      && (u.kind == OpcX87 ==> t.kind == OpcMod && j == 1)
      && (u.kind == OpcTable ==> t.kind == OpcTable && m.level[i] < m.level[Target(c)])
  }

  predicate WellFormed(m: Map) {
    && |m.level| == |m.tables| > 0 && m.tables[0].kind == OpcTable && |m.entries| > 0
    && (forall i :: 0 <= i < |m.tables| ==> |m.tables[i].cells| == Size(m.tables[i].kind) && m.level[i] <= 2)
    && (forall i :: 0 <= i < |m.tables| && m.tables[i].kind == Opc3dnow ==>
          |m.tables[i].cells| > 12 && m.tables[i].cells[12] != 0)
    && (forall i, j :: 0 <= i < |m.tables| && 0 <= j < |m.tables[i].cells| ==> CellOk(m, i, j))
  }

  /** Tables that meet all this exist: one opcode table, every opcode invalid. */
  lemma WellFormedExists()
    ensures var none := EntryOperand(OP_NONE, 0);
            WellFormed(Map([Table(OpcTable, seq(256, _ => 0))],
                           [Entry(Minvalid, none, none, none, false, false, false, false, 0)], [0]))
  {
  }
}
