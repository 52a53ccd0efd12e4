/** Code patching: a `Hook` overwrites the first five bytes of a function with a jump and can put
    them back. Memory is a byte array; addresses are 32 bits. */
module Hooks {
  import opened Bytes

  const JMP_INSTR_SIZE: nat := 5
  const JMP: byte := 0xE9
  const ADDRESSES: nat := 0x1_0000_0000

  /** `s` with `bytes` written at `at`. */
  function Write(s: seq<byte>, at: nat, bytes: seq<byte>): (r: seq<byte>)
    requires at + |bytes| <= |s|
    ensures |r| == |s|
    ensures forall a :: 0 <= a < |s| ==> r[a] == if at <= a < at + |bytes| then bytes[a - at] else s[a]
  {
    s[..at] + bytes + s[at + |bytes|..]
  }

  /** A near jump: relative to the next instruction, modulo 2^32. */
  function JumpTo(src: nat, dst: nat): (s: seq<byte>)
    ensures |s| == JMP_INSTR_SIZE
  {
    [JMP] + LE((dst - (src + JMP_INSTR_SIZE)) % ADDRESSES, 4)
  }

  /** The bytes of a jump: 0xE9, and the distance from the next instruction, lowest byte first. */
  lemma JumpBytes(src: nat, dst: nat)
    ensures var s := JumpTo(src, dst);
      var d1: int, d2: int, d3: int, d4: int := s[1], s[2], s[3], s[4];
      s[0] == 0xE9 &&
      (src + 5 + d1 + 0x100 * d2 + 0x1_0000 * d3 + 0x100_0000 * d4) % 0x1_0000_0000 == dst % 0x1_0000_0000
  {
    var offset := (dst - (src + JMP_INSTR_SIZE)) % ADDRESSES;
    FourBytes(offset);
    assert (src + 5 + offset) % ADDRESSES == dst % ADDRESSES;
  }

  lemma FourBytes(n: nat)
    requires n < ADDRESSES
    ensures var s := LE(n, 4);
      var d0: int, d1: int, d2: int, d3: int := s[0], s[1], s[2], s[3];
      n == d0 + 0x100 * d1 + 0x1_0000 * d2 + 0x100_0000 * d3
  {
    assert Shift(n, 1) == n / 256 && Shift(n, 2) == n / 256 / 256 && Shift(n, 3) == n / 256 / 256 / 256;
  }

  lemma InTwoWrites(s: seq<byte>, src: nat, dst: nat)
    requires src + JMP_INSTR_SIZE <= |s|
    ensures var offset := (dst - (src + JMP_INSTR_SIZE)) % ADDRESSES;
      Write(Write(s, src, [JMP]), src + 1, LE(offset, 4)) == Write(s, src, JumpTo(src, dst))
  {
  }

  class Hook {
    const mem: array<byte>
    var src: nat
    var dst: nat
    var code: seq<byte>
    var installed: bool

    constructor (mem: array<byte>)
      ensures this.mem == mem && !installed && src == dst == 0 && code == []
    {
      this.mem := mem;
      src, dst, code, installed := 0, 0, [], false;
    }

    /** Redirects the function at `src`, keeping the bytes it overwrites. */
    method Install() returns (ok: bool)
      requires src + JMP_INSTR_SIZE <= mem.Length
      modifies mem, `code, `installed
      ensures ok == !old(installed) && installed
      ensures ok ==>
        code == old(mem[src..src + JMP_INSTR_SIZE]) && mem[..] == Write(old(mem[..]), src, JumpTo(src, dst))
      ensures !ok ==> code == old(code) && mem[..] == old(mem[..])
    {
      if installed {
        return false;
      }
      code := mem[src..src + JMP_INSTR_SIZE];
      Patch();
      installed := true;
      return true;
    }

    /** Writes the jump: the instruction byte, then the offset. */
    method Patch()
      requires src + JMP_INSTR_SIZE <= mem.Length
      modifies mem
      ensures mem[..] == Write(old(mem[..]), src, JumpTo(src, dst))
    {
      InTwoWrites(mem[..], src, dst);
      var offset := (dst - (src + JMP_INSTR_SIZE)) % ADDRESSES;
      Copy(src, [JMP]);
      Copy(src + 1, LE(offset, 4));
    }

    /** `memcpy`. */
    method Copy(at: nat, bytes: seq<byte>)
      requires at + |bytes| <= mem.Length
      modifies mem
      ensures mem[..] == Write(old(mem[..]), at, bytes)
    {
      for i := 0 to |bytes|
        invariant forall a :: 0 <= a < mem.Length ==>
          mem[a] == if at <= a < at + i then bytes[a - at] else old(mem[a])
      {
        mem[at + i] := bytes[i];
      }
    }

    method InstallAt(src: nat, dst: nat) returns (ok: bool)
      requires src + JMP_INSTR_SIZE <= mem.Length
      modifies mem, this
      ensures ok == !old(installed) && installed
      ensures ok ==>
        this.src == src && this.dst == dst &&
        code == old(mem[src..src + JMP_INSTR_SIZE]) && mem[..] == Write(old(mem[..]), src, JumpTo(src, dst))
      ensures !ok ==> this.src == old(this.src) && this.dst == old(this.dst)
      ensures !ok ==> code == old(code) && mem[..] == old(mem[..])
    {
      if installed {
        return false;
      }
      this.src := src;
      this.dst := dst;
      ok := Install();
    }

    /** Puts the overwritten bytes back. */
    method Remove() returns (ok: bool)
      requires installed ==> |code| == JMP_INSTR_SIZE && src + JMP_INSTR_SIZE <= mem.Length
      modifies mem, `installed
      ensures ok == old(installed) && !installed
      ensures mem[..] == if ok then Write(old(mem[..]), src, code) else old(mem[..])
    {
      if !installed {
        return false;
      }
      Copy(src, code);
      installed := false;
      return true;
    }
  }

  /** Where the jump at an address leads; 0 if there is no jump. The bytes there are a jump to just
      that address. */
  method GetTargetAddress(mem: array<byte>, jmp: nat) returns (target: nat)
    requires jmp + JMP_INSTR_SIZE <= mem.Length
    ensures target == TargetAt(mem[..], jmp) && target < ADDRESSES
    ensures if mem[jmp] == JMP then mem[jmp..jmp + JMP_INSTR_SIZE] == JumpTo(jmp, target) else target == 0
  {
    if mem[jmp] == JMP {
      var nextInstr := jmp + JMP_INSTR_SIZE;
      var relAddr := ReadLE(mem[..], jmp + 1, jmp + JMP_INSTR_SIZE);
      TargetIsTarget(mem[..], jmp);
      assert mem[jmp..jmp + JMP_INSTR_SIZE] == mem[..][jmp..jmp + JMP_INSTR_SIZE];
      return (relAddr + nextInstr) % ADDRESSES;
    }
    return 0;
  }

  function TargetAt(mem: seq<byte>, jmp: nat): nat
    requires jmp + JMP_INSTR_SIZE <= |mem|
  {
    if mem[jmp] == JMP then (ReadLE(mem, jmp + 1, jmp + JMP_INSTR_SIZE) + jmp + JMP_INSTR_SIZE) % ADDRESSES else 0
  }

  /** The bytes of any jump are those of a jump to its target. */
  lemma TargetIsTarget(mem: seq<byte>, jmp: nat)
    requires jmp + JMP_INSTR_SIZE <= |mem| && mem[jmp] == JMP
    ensures mem[jmp..jmp + JMP_INSTR_SIZE] == JumpTo(jmp, TargetAt(mem, jmp))
  {
    var next := jmp + JMP_INSTR_SIZE;
    var offset := ReadLE(mem, jmp + 1, next);
    Pow256Values();
    ReadStands(mem, jmp + 1, 4);
    AtSlice(mem, jmp + 1, LE(offset, 4));
    assert (TargetAt(mem, jmp) - next) % ADDRESSES == offset;
    assert mem[jmp..next] == [mem[jmp]] + mem[jmp + 1..next];
  }

  /** A hooked function leads where the hook says, around the end of the address space too. */
  lemma InstalledLeadsTo(mem: seq<byte>, src: nat, dst: nat)
    requires src + JMP_INSTR_SIZE <= |mem|
    ensures TargetAt(Write(mem, src, JumpTo(src, dst)), src) == dst % ADDRESSES
  {
    var next := src + JMP_INSTR_SIZE;
    var offset := (dst - next) % ADDRESSES;
    var after := Write(mem, src, JumpTo(src, dst));
    forall i | 0 <= i < 4
      ensures LE(offset, 4)[i] == after[src + 1 + i]
    {
      assert JumpTo(src, dst)[1 + i] == LE(offset, 4)[i];
    }
    Pow256Values();
    ReadLEOfLE(after, src + 1, offset, 4);
    assert JumpTo(src, dst)[0] == JMP;
    assert (offset + next) % ADDRESSES == dst % ADDRESSES;
  }

  /** Removing a hook just installed leaves memory as it was. */
  lemma RemoveUndoesInstall(mem: seq<byte>, src: nat, dst: nat)
    requires src + JMP_INSTR_SIZE <= |mem|
    ensures Write(Write(mem, src, JumpTo(src, dst)), src, mem[src..src + JMP_INSTR_SIZE]) == mem
  {
  }
}
