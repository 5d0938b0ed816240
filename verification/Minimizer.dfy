/**
  The test-case minimizer: block normalization, block deletion, alphabet and
  character minimization over a buffer that shrinks in place. The verdict of
  a run is an arbitrary function of how many runs came before it and of the
  bytes that are run, so it may be inconsistent.
 */
module Minimizer {
  import opened Bytes
  import opened Reduction

  class Minimizer {
    const verdict: Verdict
    const original: seq<byte>
    const inData: array<byte>
    var inLen: nat
    const tmpBuf: array<byte>
    var totalExecs: nat
    ghost var runs: seq<seq<byte>>

    constructor (input: seq<byte>, verdict: Verdict)
      ensures Valid() && Data() == input && original == input && this.verdict == verdict
      ensures fresh(inData) && fresh(tmpBuf)
    {
      this.verdict, original := verdict, input;
      inData := new byte[|input|](i requires 0 <= i < |input| => input[i]);
      tmpBuf := new byte[|input|];
      inLen, totalExecs, runs := |input|, 0, [];
      new;
      assert inData[..] == input;
    }

    /** The buffer is the original or, byte for byte, the last one accepted. */
    ghost predicate Valid()
      reads this, inData, tmpBuf
    {
      && inData != tmpBuf
      && inLen <= inData.Length == tmpBuf.Length
      && totalExecs == |runs|
      && Data() == LastAccepted(verdict, original, runs)
    }

    function Data(): seq<byte>
      requires inLen <= inData.Length
      reads this, inData
    {
      inData[..inLen]
    }

    /** Runs the first len bytes of the scratch buffer. */
    method RunTarget(len: nat) returns (res: bool)
      requires Valid() && len <= tmpBuf.Length
      modifies this`totalExecs, this`runs
      ensures totalExecs == |runs| && runs == old(runs) + [tmpBuf[..len]]
      ensures res == verdict(old(totalExecs), tmpBuf[..len])
      ensures LastAccepted(verdict, original, runs) == if res then tmpBuf[..len] else Data()
    {
      res := verdict(totalExecs, tmpBuf[..len]);
      totalExecs := totalExecs + 1;
      runs := runs + [tmpBuf[..len]];
      assert runs[..|runs| - 1] == old(runs);
    }

    method NormalizeBlocks()
      requires Valid()
      modifies this`totalExecs, this`runs, inData, tmpBuf
      ensures Valid() && NonZero(Data()) <= NonZero(old(Data()))
      ensures Data() == Normalized(verdict, old(totalExecs), old(Data()), 0,
                                   Max(LeastPow2(inLen / 128), 4))
    {
      hide LastAccepted, Zeroed, LeastPow2, Normalized, NonZero;
      var setLen := NextP2(inLen / TMIN_SET_STEPS);
      if setLen < TMIN_SET_MIN_SIZE { setLen := TMIN_SET_MIN_SIZE; }
      var setPos := 0;
      ghost var goal := Normalized(verdict, totalExecs, Data(), 0, setLen);
      while setPos < inLen
        invariant Valid() && NonZero(Data()) <= NonZero(old(Data()))
        invariant Normalized(verdict, totalExecs, Data(), setPos, setLen) == goal
        decreases inLen - setPos
      {
        NormalizedStep(verdict, totalExecs, Data(), setPos, setLen);
        NormalizeBlock(setPos, Min(setLen, inLen - setPos));
        setPos := setPos + setLen;
      }
      NormalizedStep(verdict, totalExecs, Data(), setPos, setLen);
    }

    /** One block. */
    method NormalizeBlock(setPos: nat, useLen: nat)
      requires Valid() && setPos + useLen <= inLen
      modifies this`totalExecs, this`runs, inData, tmpBuf
      ensures Valid() && NonZero(Data()) <= NonZero(old(Data()))
      ensures var t := Zeroed(old(Data()), setPos, useLen);
              var try := t != old(Data());
              && totalExecs == old(totalExecs) + (if try then 1 else 0)
              && Data() == if try && verdict(old(totalExecs), t) then t else old(Data())
    {
      hide LastAccepted, Zeroed;
      var zero := AllZero(setPos, useLen);
      if !zero {
        ghost var before := Data();
        var res := TryZeroBlock(setPos, useLen);
        ZeroedPointwise(before, setPos, useLen);
        ZeroingLighter(before, Data());
      }
    }

    method AllZero(setPos: nat, useLen: nat) returns (zero: bool)
      requires setPos + useLen <= inLen <= inData.Length
      ensures zero <==> Zeroed(Data(), setPos, useLen) == Data()
    {
      var i := 0;
      while i < useLen && inData[setPos + i] == ZERO
        invariant 0 <= i <= useLen && forall k | setPos <= k < setPos + i :: inData[k] == ZERO
      {
        i := i + 1;
      }
      zero := i == useLen;
      ZeroedIsSame(Data(), setPos, useLen);
      if !zero { assert Data()[setPos + i] == inData[setPos + i]; }
    }

    method TryZeroBlock(setPos: nat, useLen: nat) returns (res: bool)
      requires Valid() && setPos + useLen <= inLen
      modifies this`totalExecs, this`runs, inData, tmpBuf
      ensures Valid() && totalExecs == old(totalExecs) + 1
      ensures res == verdict(old(totalExecs), Zeroed(old(Data()), setPos, useLen))
      ensures Data() == if res then Zeroed(old(Data()), setPos, useLen) else old(Data())
    {
      hide LastAccepted, Zeroed;
      ZeroedPointwise(Data(), setPos, useLen);
      Memcpy(tmpBuf, 0, inData, 0, inLen);
      Memset(tmpBuf, setPos, ZERO, useLen);
      assert tmpBuf[..inLen] == Zeroed(Data(), setPos, useLen);
      res := RunTarget(inLen);
      if res {
        Memset(inData, setPos, ZERO, useLen);
        assert Data() == tmpBuf[..inLen];
      }
    }

    /** One sweep over the buffer with blocks of delLen bytes. */
    method DeleteBlocks(delLen: nat) returns (changed: bool)
      requires Valid() && delLen > 0
      modifies this`inLen, this`totalExecs, this`runs, inData, tmpBuf
      ensures Valid() && NonZero(Data()) <= NonZero(old(Data()))
      ensures if changed then inLen < old(inLen) else Data() == old(Data())
      ensures Consistent(verdict) ==> Data() == Swept(verdict, old(Data()), 0, delLen, true)
    {
      hide Swept, Consistent, LastAccepted, NonZero;
      var delPos, prevDel := 0, true;
      changed := false;
      ghost var goal := Swept(verdict, Data(), 0, delLen, true);
      while delPos < inLen
        invariant Valid() && NonZero(Data()) <= NonZero(old(Data()))
        invariant if changed then inLen < old(inLen) else Data() == old(Data())
        invariant !prevDel ==> delLen <= delPos
        invariant Consistent(verdict) ==> Swept(verdict, Data(), delPos, delLen, prevDel) == goal
        decreases inLen - delPos
      {
        var skip := SkipsBlock(delPos, delLen, prevDel);
        if Consistent(verdict) { SweptStep(verdict, totalExecs, Data(), delPos, delLen, prevDel); }
        if skip {
          delPos := delPos + delLen;
          continue;
        }
        prevDel := TryDeletion(delPos, delLen, Max(inLen - delPos - delLen, 0));
        if prevDel {
          changed := true;
        } else {
          delPos := delPos + delLen;
        }
      }
      if Consistent(verdict) { SweptStep(verdict, 0, Data(), delPos, delLen, prevDel); }
    }

    /** A block equal to its rejected neighbour is not tried, except at the very end. */
    method SkipsBlock(delPos: nat, delLen: nat, prevDel: bool) returns (skip: bool)
      requires inLen <= inData.Length && delPos < inLen && (!prevDel ==> delLen <= delPos)
      ensures skip <==> !prevDel && Repeats(Data(), delPos, delLen)
    {
      var tailLen := Max(inLen - delPos - delLen, 0);
      skip := !prevDel && tailLen > 0 && inData[delPos - delLen..delPos] == inData[delPos..delPos + delLen];
      if !prevDel && tailLen > 0 {
        assert Data()[delPos - delLen..delPos] == inData[delPos - delLen..delPos];
        assert Data()[delPos..delPos + delLen] == inData[delPos..delPos + delLen];
      }
    }

    method TryDeletion(delPos: nat, delLen: nat, tailLen: nat) returns (res: bool)
      requires Valid() && delPos < inLen && delLen > 0 && tailLen == Max(inLen - delPos - delLen, 0)
      modifies this`inLen, this`totalExecs, this`runs, inData, tmpBuf
      ensures Valid() && res == verdict(old(totalExecs), Without(old(Data()), delPos, delLen))
      ensures Data() == if res then Without(old(Data()), delPos, delLen) else old(Data())
      ensures NonZero(Data()) <= NonZero(old(Data())) && (res ==> inLen < old(inLen))
    {
      WithoutLighter(Data(), delPos, delLen);
      StageDeletion(delPos, delLen, tailLen);
      res := RunTarget(delPos + tailLen);
      if res {
        Adopt(delPos + tailLen);
      }
    }

    /** Head and tail go to the scratch buffer. */
    method StageDeletion(delPos: nat, delLen: nat, tailLen: nat)
      requires Valid() && delPos < inLen && tailLen == Max(inLen - delPos - delLen, 0)
      modifies tmpBuf
      ensures tmpBuf[..delPos + tailLen] == Without(Data(), delPos, delLen)
    {
      Memcpy(tmpBuf, 0, inData, 0, delPos);
      Memcpy(tmpBuf, delPos, inData, Min(delPos + delLen, inLen), tailLen);
    }

    /** The first len scratch bytes become the data. */
    method Adopt(len: nat)
      requires inData != tmpBuf && len <= inLen <= inData.Length == tmpBuf.Length
      modifies this`inLen, inData
      ensures inLen == len && Data() == tmpBuf[..len]
    {
      Memcpy(inData, 0, tmpBuf, 0, len);
      inLen := len;
    }

    /** Tries to replace each symbol, everywhere it occurs, by '0'. */
    method MinimizeAlphabet() returns (changed: bool)
      requires Valid()
      modifies this`inLen, this`totalExecs, this`runs, inData, tmpBuf
      ensures Valid() && inLen == old(inLen) && NonZero(Data()) <= NonZero(old(Data()))
      ensures if changed then NonZero(Data()) < NonZero(old(Data())) else Data() == old(Data())
      ensures Consistent(verdict) ==> Data() == SymbolsGone(verdict, old(Data()), old(Data()), 0)
    {
      hide SymbolsGone, Consistent, LastAccepted, NonZero, WithoutSymbol;
      var alphaMap := CountSymbols();
      changed := false;
      ghost var was, goal := Data(), SymbolsGone(verdict, Data(), Data(), 0);
      var i := 0;
      while i < 256
        invariant forall b: byte :: b in was <==> alphaMap[b] > 0
        invariant 0 <= i <= 256 && Valid() && inLen == old(inLen) && NonZero(Data()) <= NonZero(was)
        invariant if changed then NonZero(Data()) < NonZero(was) else Data() == was
        invariant forall b: byte | b >= i && b != ZERO :: b in Data() <==> b in was
        invariant Consistent(verdict) ==> SymbolsGone(verdict, Data(), was, i) == goal
      {
        if Consistent(verdict) { SymbolsStep(verdict, totalExecs, Data(), was, i); }
        if i == ZERO || alphaMap[i] == 0 {
          i := i + 1;
          continue;
        }
        ghost var before := Data();
        SymbolGone(before, i);
        SymbolLighter(before, i);
        var res := TrySymbol(i);
        changed := changed || res;
        i := i + 1;
      }
      if Consistent(verdict) { SymbolsStep(verdict, 0, Data(), was, 256); }
    }

    method TrySymbol(sym: byte) returns (res: bool)
      requires Valid()
      modifies this`inLen, this`totalExecs, this`runs, inData, tmpBuf
      ensures Valid() && inLen == old(inLen) && res == verdict(old(totalExecs), WithoutSymbol(old(Data()), sym))
      ensures Data() == if res then WithoutSymbol(old(Data()), sym) else old(Data())
    {
      StageSymbol(sym);
      res := RunTarget(inLen);
      if res {
        Adopt(inLen);
      }
    }

    method StageSymbol(sym: byte)
      requires Valid()
      modifies tmpBuf
      ensures tmpBuf[..inLen] == WithoutSymbol(Data(), sym)
    {
      Memcpy(tmpBuf, 0, inData, 0, inLen);
      ReplaceSymbol(tmpBuf, inLen, sym);
    }

    static method ReplaceSymbol(buf: array<byte>, len: nat, sym: byte)
      requires len <= buf.Length
      modifies buf
      ensures forall k | 0 <= k < len :: buf[k] == if old(buf[k]) == sym then ZERO else old(buf[k])
    {
      var r := 0;
      while r < len
        invariant 0 <= r <= len
        invariant forall k | 0 <= k < r :: buf[k] == if old(buf[k]) == sym then ZERO else old(buf[k])
        invariant forall k | r <= k < len :: buf[k] == old(buf[k])
      {
        if buf[r] == sym { buf[r] := ZERO; }
        r := r + 1;
      }
    }

    method CountSymbols() returns (alphaMap: array<nat>)
      requires Valid()
      ensures fresh(alphaMap) && alphaMap.Length == 256
      ensures forall b: byte :: b in Data() <==> alphaMap[b] > 0
    {
      alphaMap := new nat[256](_ => 0);
      var i := 0;
      while i < inLen
        invariant 0 <= i <= inLen
        invariant forall b: byte :: b in inData[..i] <==> alphaMap[b] > 0
      {
        assert inData[..i + 1] == inData[..i] + [inData[i]];
        alphaMap[inData[i]] := alphaMap[inData[i]] + 1;
        i := i + 1;
      }
    }

    /** Tries to replace each single byte by '0'. */
    method MinimizeCharacters() returns (changed: bool)
      requires Valid()
      modifies this`totalExecs, this`runs, inData, tmpBuf
      ensures Valid() && NonZero(Data()) <= NonZero(old(Data()))
      ensures if changed then NonZero(Data()) < NonZero(old(Data())) else Data() == old(Data())
      ensures Consistent(verdict) ==> Data() == CharactersGone(verdict, old(Data()), 0)
    {
      hide CharactersGone, Consistent, LastAccepted, NonZero;
      Memcpy(tmpBuf, 0, inData, 0, inLen);
      assert tmpBuf[..inLen] == Data();
      changed := false;
      ghost var goal := CharactersGone(verdict, Data(), 0);
      var i := 0;
      while i < inLen
        invariant 0 <= i <= inLen && Valid() && NonZero(Data()) <= NonZero(old(Data()))
        invariant if changed then NonZero(Data()) < NonZero(old(Data())) else Data() == old(Data())
        invariant tmpBuf[..inLen] == Data()
        invariant Consistent(verdict) ==> CharactersGone(verdict, Data(), i) == goal
      {
        assert tmpBuf[i] == Data()[i];
        if Consistent(verdict) { CharactersStep(verdict, totalExecs, Data(), i); }
        if tmpBuf[i] != ZERO {
          CharacterLighter(Data(), i);
          var res := TryCharacter(i);
          changed := changed || res;
        }
        i := i + 1;
      }
      if Consistent(verdict) { CharactersStep(verdict, 0, Data(), i); }
    }

    /** The scratch buffer keeps mirroring the data, so only byte i is written. */
    method TryCharacter(i: nat) returns (res: bool)
      requires Valid() && i < inLen && tmpBuf[..inLen] == Data()
      modifies this`totalExecs, this`runs, inData, tmpBuf
      ensures Valid() && tmpBuf[..inLen] == Data()
      ensures res == verdict(old(totalExecs), old(Data())[i := ZERO])
      ensures Data() == if res then old(Data())[i := ZERO] else old(Data())
    {
      var orig := tmpBuf[i];
      assert orig == Data()[i];
      tmpBuf[i] := ZERO;
      assert tmpBuf[..inLen] == Data()[i := ZERO];
      res := RunTarget(inLen);
      if res {
        inData[i] := ZERO;
        assert Data() == tmpBuf[..inLen];
      } else {
        tmpBuf[i] := orig;
        assert tmpBuf[..inLen] == Data();
      }
    }

    /** The whole minimization. It terminates whatever the verdicts are. */
    method Minimize() returns (curPass: nat)
      requires Valid()
      modifies this, inData, tmpBuf
      ensures Valid() && inLen <= old(inLen)
      ensures curPass <= Weight(old(Data())) + 1
      ensures Consistent(verdict) ==> Data() == Minimized(verdict, old(Data()))
      ensures Consistent(verdict) ==> Irreducible(verdict, Data(), LeastPow2(inLen / 16))
      ensures Consistent(verdict) ==> OneMinimal(verdict, Data())
      ensures Monotone(verdict) ==> SymbolsRejected(verdict, Data()) && CharactersRejected(verdict, Data())
      ensures Consistent(verdict) && curPass == 1 ==>
                SymbolsRejected(verdict, Data()) && CharactersRejected(verdict, Data())
    {
      hide LastAccepted, Passes, Deleted, Replaced, Normalized, NonZero, Irreducible, OneMinimal, Consistent, LeastPow2;
      hide Monotone, SymbolsRejected, CharactersRejected;
      ghost var start := Data();
      StartsFrom(verdict, totalExecs, start);
      NormalizeBlocks();
      curPass := 0;
      var again := true;
      while again
        invariant Valid() && inLen <= old(inLen)
        invariant curPass + Weight(Data()) <= Weight(start) + if again then 0 else 1
        invariant Consistent(verdict) ==>
          Minimized(verdict, start) == if again then Passes(verdict, Data(), curPass == 0) else Data()
        invariant !again && Consistent(verdict) ==> Deleted(verdict, Data()) == Data()
        invariant !again && Consistent(verdict) && curPass == 1 ==> Replaced(verdict, Data()) == Data()
        decreases Weight(Data()), again
      {
        PassStep(verdict, Data(), curPass == 0);
        curPass := curPass + 1;
        var deleted := DeleteAllSizes();
        if curPass > 1 && !deleted {
          break;
        }
        var changed := ReplaceBytes();
        again := deleted || changed;
      }
      Conclude(curPass, start);
    }

    /** The symbol stage, then the character stage. */
    method ReplaceBytes() returns (changed: bool)
      requires Valid()
      modifies this`inLen, this`totalExecs, this`runs, inData, tmpBuf
      ensures Valid() && inLen == old(inLen) && NonZero(Data()) <= NonZero(old(Data()))
      ensures if changed then NonZero(Data()) < NonZero(old(Data())) else Data() == old(Data())
      ensures Consistent(verdict) ==> Data() == Replaced(verdict, old(Data()))
    {
      hide LastAccepted, SymbolsGone, CharactersGone, NonZero, Consistent;
      var symbols := MinimizeAlphabet();
      var characters := MinimizeCharacters();
      changed := symbols || characters;
    }

    lemma Conclude(curPass: nat, start: seq<byte>)
      requires Valid()
      requires Consistent(verdict) ==> Minimized(verdict, start) == Data() == Deleted(verdict, Data())
      requires Consistent(verdict) && curPass == 1 ==> Replaced(verdict, Data()) == Data()
      ensures Consistent(verdict) ==> Irreducible(verdict, Data(), LeastPow2(inLen / TRIM_START_STEPS))
      ensures Consistent(verdict) ==> OneMinimal(verdict, Data())
      ensures Monotone(verdict) ==> SymbolsRejected(verdict, Data()) && CharactersRejected(verdict, Data())
      ensures Consistent(verdict) && curPass == 1 ==>
                SymbolsRejected(verdict, Data()) && CharactersRejected(verdict, Data())
    {
      if Consistent(verdict) {
        IdleDeletion(verdict, Data());
        if curPass == 1 { IdleReplacing(verdict, Data()); }
        if Monotone(verdict) { MonotoneIsMinimal(verdict, start); }
      }
    }

    /** Block deletion from a sixteenth of the buffer, rounded up to a power of two, down to single bytes. */
    method DeleteAllSizes() returns (changed: bool)
      requires Valid()
      modifies this`inLen, this`totalExecs, this`runs, inData, tmpBuf
      ensures Valid() && NonZero(Data()) <= NonZero(old(Data()))
      ensures if changed then inLen < old(inLen) else Data() == old(Data())
      ensures Consistent(verdict) ==> Data() == Deleted(verdict, old(Data()))
      ensures !changed && Consistent(verdict) ==> Irreducible(verdict, Data(), LeastPow2(inLen / TRIM_START_STEPS))
    {
      hide LastAccepted, Swept, NonZero, LeastPow2, Consistent, Irreducible;
      var delLen := NextP2(inLen / TRIM_START_STEPS);
      ghost var goal := DeletedFrom(verdict, Data(), delLen);
      changed := DeleteBlocks(delLen);
      while delLen > 1 && inLen >= 1
        invariant delLen >= 1 && Valid() && NonZero(Data()) <= NonZero(old(Data()))
        invariant if changed then inLen < old(inLen) else Data() == old(Data())
        invariant Consistent(verdict) ==>
          goal == if delLen > 1 && inLen >= 1 then DeletedFrom(verdict, Data(), delLen / 2) else Data()
      {
        delLen := delLen / 2;
        var more := DeleteBlocks(delLen);
        changed := changed || more;
      }
      if !changed && Consistent(verdict) { IdleDeletion(verdict, Data()); }
    }
  }
}
