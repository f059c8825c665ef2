/**
 * CNFrameInfo and the two process-wide stream registries it works with: the
 * end-of-stream registry (stream id -> "its EOS frame has been released")
 * and the removal registry (stream id -> "removed"). Each registry operation
 * runs under its lock in the original, so each is one atomic step here.
 */
module Frame {
  /** The bits of CNFrameFlag. */
  datatype FrameFlag = Eos | Invalid | Removed

  /** The bit index of each flag. */
  function FlagPosition(f: FrameFlag): (p: bv64)
    ensures p < 3
  {
    match f
    case Eos => 0
    case Invalid => 1
    case Removed => 2
  }

  /** The value of each flag: 1 << 0, 1 << 1 and 1 << 2, a single bit at the flag's position. */
  function FlagValue(f: FrameFlag): (v: bv64)
    ensures v == 1 << FlagPosition(f)
  {
    match f
    case Eos => 1 << 0
    case Invalid => 1 << 1
    case Removed => 1 << 2
  }

  /** Bit j of a 64-bit word. */
  predicate Bit64(word: bv64, j: bv64)
    requires j < 64
  {
    (word >> j) & 1 == 1
  }

  /** The test behind IsEos, IsInvalid and IsRemoved: the flag's bit is set. */
  predicate HasFlag(flags: bv64, f: FrameFlag)
    ensures HasFlag(flags, f) <==> Bit64(flags, FlagPosition(f))
  {
    flags & FlagValue(f) != 0
  }

  /** OR-ing a flag in sets its bit and changes no other bit. */
  function SetFlag(flags: bv64, f: FrameFlag): (r: bv64)
    ensures HasFlag(r, f)
    ensures r & !FlagValue(f) == flags & !FlagValue(f)
  {
    flags | FlagValue(f)
  }

  /** The flags are distinct bits, so OR-ing one in never changes the test of another. */
  lemma SetFlagKeepsOthers(flags: bv64, f: FrameFlag, g: FrameFlag)
    requires f != g
    ensures HasFlag(SetFlag(flags, f), g) <==> HasFlag(flags, g)
  {
    var r := SetFlag(flags, f);
    assert FlagValue(g) & FlagValue(f) == 0;
    assert r & FlagValue(g) == flags & FlagValue(g);
  }

  /** The routing mask with bit id set. */
  function WithModuleBit(mask: bv64, id: bv64): (r: bv64)
    requires id < 64
    ensures Bit64(r, id)
  {
    mask | (1 << id)
  }

  /** Setting bit id keeps every other bit of the routing mask. */
  lemma WithModuleBitKeepsOthers(mask: bv64, id: bv64)
    requires id < 64
    ensures WithModuleBit(mask, id) & !(1 << id) == mask & !(1 << id)
  {
  }

  /** Marking the same module twice is the same as marking it once. */
  lemma WithModuleBitIdempotent(mask: bv64, id: bv64)
    requires id < 64
    ensures WithModuleBit(WithModuleBit(mask, id), id) == WithModuleBit(mask, id)
  {
  }

  /** kInvalidStreamIdx: the all-ones 32-bit index. */
  const INVALID_STREAM_IDX: bv32 := 0xFFFF_FFFF

  /** All fields of a frame, as one value. */
  datatype FrameView = FrameView(streamId: string, timestamp: int, flags: bv64, payload: FrameInfo?,
                                 channelIdx: bv32, modulesMask: bv64)

  class FrameInfo {
    var streamId: string
    /** int64 in the original. */
    var timestamp: int
    var flags: bv64
    /** The frame of the parent pipeline, if any. */
    var payload: FrameInfo?
    var channelIdx: bv32
    var modulesMask: bv64

    function View(): FrameView
      reads this
    {
      FrameView(streamId, timestamp, flags, payload, channelIdx, modulesMask)
    }

    /** The default constructor: every field at its declared default. */
    constructor ()
      ensures View() == FrameView("", -1, 0, null, INVALID_STREAM_IDX, 0)
    {
      streamId := "";
      timestamp := -1;
      flags := 0;
      payload := null;
      channelIdx := INVALID_STREAM_IDX;
      modulesMask := 0;
    }

    predicate IsEos()
      reads this
    {
      HasFlag(flags, Eos)
    }

    predicate IsInvalid()
      reads this
    {
      HasFlag(flags, Invalid)
    }

    predicate IsRemoved()
      reads this
    {
      HasFlag(flags, Removed)
    }

    method SetStreamIndex(index: bv32)
      modifies this
      ensures View() == old(View()).(channelIdx := index)
    {
      channelIdx := index;
    }

    method GetStreamIndex() returns (index: bv32)
      ensures index == channelIdx
    {
      index := channelIdx;
    }

    method SetModulesMask(mask: bv64)
      modifies this
      ensures View() == old(View()).(modulesMask := mask)
    {
      modulesMask := mask;
    }

    method GetModulesMask() returns (mask: bv64)
      ensures mask == modulesMask
    {
      mask := modulesMask;
    }

    /**
     * Sets the bit of the module with the given id and returns the new mask.
     * The id is what the module's GetId() returns; a shift by 64 or more is
     * undefined in the original, so the id must be below 64.
     */
    method MarkPassed(moduleId: bv64) returns (mask: bv64)
      requires moduleId < 64
      modifies this
      ensures View() == old(View()).(modulesMask := WithModuleBit(old(modulesMask), moduleId))
      ensures mask == modulesMask
    {
      modulesMask := modulesMask | (1 << moduleId);
      mask := modulesMask;
    }
  }

  /** One look at the EOS registry by a synchronous check. */
  datatype EosPoll = Absent | Pending | Reached

  /**
   * One iteration of the synchronous check's polling loop: no entry, an entry
   * still false, or an entry true, which is erased.
   */
  function PollEos(m: map<string, bool>, id: string): (r: (EosPoll, map<string, bool>))
    ensures r.0 == Absent <==> id !in m
    ensures r.0 == Pending <==> id in m && !m[id]
    ensures r.0 == Reached <==> id in m && m[id]
    ensures r.0 == Reached ==> id !in r.1 && r.1 == m - {id}
    ensures r.0 != Reached ==> r.1 == m
  {
    if id !in m then (Absent, m)
    else if !m[id] then (Pending, m)
    else (Reached, m - {id})
  }

  /** The non-blocking check: true, erasing the entry, exactly when the entry is there and true. */
  function CheckEos(m: map<string, bool>, id: string): (r: (bool, map<string, bool>))
    ensures r.0 <==> id in m && m[id]
    ensures r.0 ==> r.1 == m - {id}
    ensures !r.0 ==> r.1 == m
  {
    var p := PollEos(m, id);
    (p.0 == Reached, p.1)
  }

  /** After a successful check, checking again reports false. */
  lemma CheckEosOnce(m: map<string, bool>, id: string)
    requires CheckEos(m, id).0
    ensures !CheckEos(CheckEos(m, id).1, id).0
  {
  }

  /** What Create does to the EOS registry: an EOS frame without a parent registers its stream as pending. */
  function CreateEffect(m: map<string, bool>, id: string, eos: bool, hasParent: bool): (r: map<string, bool>)
    ensures eos && !hasParent ==> id in r && !r[id]
    ensures !(eos && !hasParent) ==> r == m
    ensures forall k :: k != id ==> (k in r <==> k in m) && (k in r ==> r[k] == m[k])
  {
    if eos && !hasParent then m[id := false] else m
  }

  /** What destroying a frame does to the EOS registry: an EOS frame without a parent marks its stream reached. */
  function DestroyEffect(m: map<string, bool>, id: string, isEos: bool, hasParent: bool): (r: map<string, bool>)
    ensures isEos && !hasParent ==> id in r && r[id]
    ensures !(isEos && !hasParent) ==> r == m
    ensures forall k :: k != id ==> (k in r <==> k in m) && (k in r ==> r[k] == m[k])
  {
    if isEos && !hasParent then m[id := true] else m
  }

  /**
   * The EOS hand-shake: once a parentless EOS frame of a stream is created,
   * the stream is pending; once that frame is destroyed, a check succeeds
   * exactly once and leaves no entry for the stream.
   */
  lemma EosHandshake(m: map<string, bool>, id: string)
    ensures var created := CreateEffect(m, id, true, false);
      && PollEos(created, id).0 == Pending
      && !CheckEos(created, id).0
    ensures var destroyed := DestroyEffect(CreateEffect(m, id, true, false), id, true, false);
      && CheckEos(destroyed, id) == (true, m - {id})
      && !CheckEos(CheckEos(destroyed, id).1, id).0
  {
    var destroyed := DestroyEffect(CreateEffect(m, id, true, false), id, true, false);
    assert destroyed - {id} == m - {id};
  }

  /** Whether the removal registry marks a stream removed (false when it has no entry). */
  predicate RemovedIn(m: map<string, bool>, id: string)
  {
    id in m && m[id]
  }

  /**
   * SetStreamRemoved on the map: a present entry is erased when value is
   * false and set to true otherwise; an absent one is inserted with value.
   */
  function SetRemoved(m: map<string, bool>, id: string, value: bool): (r: map<string, bool>)
    ensures RemovedIn(r, id) <==> value
    ensures forall k :: k != id ==> (k in r <==> k in m) && (k in r ==> r[k] == m[k])
    ensures id in m && !value ==> id !in r
    ensures id !in m ==> id in r && r[id] == value
  {
    if id in m then (if !value then m - {id} else m[id := true])
    else m[id := value]
  }

  class StreamRegistries {
    /** s_stream_eos_map_ */
    var eos: map<string, bool>
    /** s_stream_removed_map_ */
    var removed: map<string, bool>

    constructor ()
      ensures eos == map[] && removed == map[]
    {
      eos := map[];
      removed := map[];
    }

    /** One iteration of the synchronous polling loop. */
    method PollStreamEos(id: string) returns (poll: EosPoll)
      modifies this
      ensures (poll, eos) == PollEos(old(eos), id) && removed == old(removed)
    {
      if id in eos {
        if eos[id] {
          eos := eos - {id};
          poll := Reached;
        } else {
          poll := Pending;
        }
      } else {
        poll := Absent;
      }
    }

    /**
     * CheckStreamEosReached. Non-blocking: one check. Synchronous: poll until
     * the entry is absent (false) or true (erased, true); on a pending entry
     * the original keeps polling until another thread releases the EOS frame,
     * which a sequential model cannot express, so that case is excluded.
     */
    method CheckStreamEosReached(id: string, sync: bool) returns (reached: bool)
      requires sync ==> PollEos(eos, id).0 != Pending
      modifies this
      ensures (reached, eos) == CheckEos(old(eos), id) && removed == old(removed)
    {
      if sync {
        var poll := PollStreamEos(id);
        reached := poll == Reached;
      } else {
        reached := false;
        if id in eos && eos[id] {
          eos := eos - {id};
          reached := true;
        }
      }
    }

    method SetStreamRemoved(id: string, value: bool)
      modifies this
      ensures removed == SetRemoved(old(removed), id, value) && eos == old(eos)
    {
      if id in removed {
        if !value {
          removed := removed - {id};
          return;
        }
        removed := removed[id := true];
      } else {
        removed := removed[id := value];
      }
    }

    method IsStreamRemoved(id: string) returns (r: bool)
      ensures r <==> id in removed && removed[id]
    {
      r := false;
      if id in removed {
        r := removed[id];
      }
    }
  }

  /**
   * CNFrameInfo::Create. An empty stream id gives null; so does a failed
   * allocation (outOfMemory). Otherwise a fresh frame with the id and the
   * parent; an EOS frame gets the EOS bit, and if it has no parent its
   * stream is registered as pending in the EOS registry.
   */
  method Create(streamId: string, eos: bool, payload: FrameInfo?, reg: StreamRegistries, outOfMemory: bool)
    returns (frame: FrameInfo?)
    modifies reg
    ensures frame == null <==> streamId == "" || outOfMemory
    ensures frame == null ==> reg.eos == old(reg.eos) && reg.removed == old(reg.removed)
    ensures frame != null ==>
      && fresh(frame)
      && frame.View() == FrameView(streamId, -1, if eos then SetFlag(0, Eos) else 0, payload, INVALID_STREAM_IDX, 0)
      && reg.eos == CreateEffect(old(reg.eos), streamId, eos, payload != null)
      && reg.removed == old(reg.removed)
  {
    if streamId == "" {
      return null;
    }
    if outOfMemory {
      return null;
    }
    frame := new FrameInfo();
    frame.streamId := streamId;
    frame.payload := payload;
    if eos {
      frame.flags := frame.flags | FlagValue(Eos);
      if frame.payload == null {
        reg.eos := reg.eos[streamId := false];
      }
    }
  }

  /** ~CNFrameInfo: an EOS frame without a parent marks its stream's EOS as reached. */
  method Destroy(frame: FrameInfo, reg: StreamRegistries)
    modifies reg
    ensures reg.eos == DestroyEffect(old(reg.eos), frame.streamId, frame.IsEos(), frame.payload != null)
    ensures reg.removed == old(reg.removed)
  {
    if frame.IsEos() {
      if frame.payload == null {
        reg.eos := reg.eos[frame.streamId := true];
      }
    }
  }
}
