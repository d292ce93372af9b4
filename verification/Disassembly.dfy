/** The decoder as the hooker uses it: the instructions it splits a window into. */
module Disassembly {
  import opened Bytes
  import opened Isa
  import opened Prologue
  import opened Slot
  import opened Records
  import Decoder
  import Walk
  import Tables
  import Fixups
  import Installer

  /** How the hooker reads instruction bytes: the instruction it takes them for has these bytes. */
  type Reader = seq<Byte> -> Insn

  ghost predicate Faithful(read: Reader) {
    forall code :: Bits(read(code)) == code && (read(code).RipRel? ==> |read(code).pre| >= 2)
  }

  function AsRead(list: seq<Decoder.Insn>, read: Reader): (ds: seq<Insn>)
    ensures |ds| == |list| && forall k :: 0 <= k < |ds| ==> ds[k] == read(list[k].code)
  {
    seq(|list|, k requires 0 <= k < |list| => read(list[k].code))
  }

  /** The bytes stay. */
  lemma {:induction false} BytesStay(list: seq<Decoder.Insn>, read: Reader)
    requires Faithful(read)
    ensures BitsAll(AsRead(list, read)) == Decoder.CodeOf(list)
  {
    hide Bits;
    if list != [] {
      var init, last := list[..|list| - 1], read(list[|list| - 1].code);
      BytesStay(init, read);
      assert AsRead(list, read) == AsRead(init, read) + [last];
      BitsAppend(AsRead(init, read), [last]);
      Fixups.BitsOfOne(last);
    }
  }

  lemma {:induction false} NoneEmpty(list: seq<Decoder.Insn>, origin: nat, s: Walk.Setup, k: nat)
    requires Decoder.Contiguous(list, origin, s) && k < |list|
    ensures |list[k].code| >= 1
  {
    hide Decoder.Whole;
    if k < |list| - 1 {
      NoneEmpty(list[..|list| - 1], origin, s, k);
    }
  }

  /** Whatever the decoder makes of a window of 24 bytes is a listing the hooker can work with. */
  lemma SplitDecodes(list: seq<Decoder.Insn>, origin: nat, s: Walk.Setup, w: seq<Byte>, read: Reader)
    requires |w| == MAX_LEN_TO_DISASSEMBLE && Faithful(read)
    requires Decoder.CodeOf(list) == w && Decoder.Contiguous(list, origin, s)
    ensures Decodes(AsRead(list, read), w)
  {
    var ds := AsRead(list, read);
    BytesStay(list, read);
    hide Bits, BitsAll, Decoder.Contiguous;
    forall k | 0 <= k < |ds| ensures Len(ds[k]) >= 1 && (ds[k].RipRel? ==> |ds[k].pre| >= 2) {
      NoneEmpty(list, origin, s, k);
    }
  }

  /** So the decoder, with any tables, is a disassembler as installation needs it, whatever it
      takes for one instruction. */
  lemma DecoderWorks(dis: Disassembler, split: seq<Byte> -> seq<Decoder.Insn>, origin: seq<Byte> -> nat,
                     map_: Tables.Map, vendor: Walk.Vendor, read: Reader)
    requires Faithful(read)
    requires forall w: seq<Byte> :: |w| == MAX_LEN_TO_DISASSEMBLE ==>
               && dis(w) == AsRead(split(w), read) && Decoder.CodeOf(split(w)) == w
               && Decoder.Contiguous(split(w), origin(w), Walk.Setup(map_, w, 64, vendor))
    ensures Installer.Works(dis)
  {
    hide Decodes, Faithful;
    forall w: seq<Byte> | |w| == MAX_LEN_TO_DISASSEMBLE ensures Decodes(dis(w), w) {
      SplitDecodes(split(w), origin(w), Walk.Setup(map_, w, 64, vendor), w, read);
    }
  }

  /** The loop of install_hook over a window: the decoder's result, read as instructions. */
  method DisassembleWindow(map_: Tables.Map, w: seq<Byte>, origin: nat, vendor: Walk.Vendor, read: Reader)
    returns (ds: seq<Insn>)
    requires Tables.WellFormed(map_) && origin < TWO64 && |w| == MAX_LEN_TO_DISASSEMBLE && Faithful(read)
    ensures Decodes(ds, w)
  {
    hide Tables.WellFormed, Decodes, Faithful;
    var u := new Decoder.Ud(map_, w, true, 64, vendor, origin);
    var list := Decoder.DisassembleAll(u);
    SplitDecodes(list, origin, u.Here(), w, read);
    ds := AsRead(list, read);
  }
}
