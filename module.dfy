/**
 * The dispatch protocol of Module: lazy id assignment from the owning
 * pipeline, and DoProcess / DoTransmitData / TransmitData, which consult and
 * update the removal registry and route a frame either to the module's own
 * Process or, after it, on to the pipeline.
 *
 * The module's Process and OnEos, the pipeline's ProvideData and
 * GetModuleIdx, and NotifyObserver belong to code outside this model: their
 * results arrive as parameters and each call is appended to the module's
 * ghost trace.
 */
module ModuleDispatch {
  import opened Common
  import opened Frame

  /** The pipeline a module belongs to; only its identity matters here. */
  class Pipeline {
    constructor ()
    {
    }
  }

  /** A call the module makes to code outside this model. */
  datatype Effect =
    | Processed(frame: FrameInfo)
    | EosHandled(streamId: string)
    | Provided(frame: FrameInfo)
    | Notified(frame: FrameInfo)

  /** The stream id of a frame's parent, if it has one. */
  function ParentStreamId(f: FrameInfo): Option<string>
    reads f, f.payload
  {
    if f.payload == null then None else Some(f.payload.streamId)
  }

  /**
   * The removal registry after DoProcess's first step: a stream not marked
   * removed whose parent's stream is gets marked removed.
   */
  function MarkedRemoved(m: map<string, bool>, id: string, parent: Option<string>): (r: map<string, bool>)
    ensures RemovedIn(r, id) <==> RemovedIn(m, id) || (parent.Some? && RemovedIn(m, parent.value))
    ensures forall k :: k != id ==> (k in r <==> k in m) && (k in r ==> r[k] == m[k])
  {
    if !RemovedIn(m, id) && parent.Some? && RemovedIn(m, parent.value) then SetRemoved(m, id, true) else m
  }

  /**
   * The removal registry after DoTransmitData's first step: for an EOS frame
   * with a parent, a removed stream's entry is erased.
   */
  function ClearedOnEos(m: map<string, bool>, id: string, isEos: bool, hasParent: bool): (r: map<string, bool>)
    ensures isEos && hasParent ==> !RemovedIn(r, id)
    ensures isEos && hasParent && RemovedIn(m, id) ==> id !in r
    ensures forall k :: k != id ==> (k in r <==> k in m) && (k in r ==> r[k] == m[k])
    ensures !(isEos && hasParent) ==> r == m
  {
    if isEos && hasParent && RemovedIn(m, id) then SetRemoved(m, id, false) else m
  }

  /**
   * DoProcess's first step: whether the frame's stream counts as removed,
   * marking it removed when only its parent's stream is.
   */
  method CheckRemoved(data: FrameInfo, reg: StreamRegistries) returns (removed: bool)
    modifies reg
    ensures reg.eos == old(reg.eos)
    ensures reg.removed == MarkedRemoved(old(reg.removed), data.streamId, ParentStreamId(data))
    ensures removed == RemovedIn(reg.removed, data.streamId)
  {
    removed := reg.IsStreamRemoved(data.streamId);
    if !removed {
      if data.payload != null {
        var parentRemoved := reg.IsStreamRemoved(data.payload.streamId);
        if parentRemoved {
          reg.SetStreamRemoved(data.streamId, true);
          removed := true;
        }
      }
    }
  }

  class Module {
    /** id_, with None standing for kInvalidModuleId. */
    var id: Option<bv64>
    var container: Pipeline?
    /** hasTransmit_: the module sends frames on itself instead of leaving that to the pipeline. */
    const hasTransmit: bool
    ghost var trace: seq<Effect>

    constructor (hasTransmit: bool)
      ensures id == None && container == null && this.hasTransmit == hasTransmit && trace == []
    {
      id := None;
      container := null;
      this.hasTransmit := hasTransmit;
      trace := [];
    }

    /**
     * GetId: while the id is invalid and a pipeline is bound, take the id the
     * pipeline hands out (drawn, the result of GetModuleIdx); a valid id is
     * never replaced.
     */
    method GetId(drawn: Option<bv64>) returns (r: Option<bv64>)
      modifies this
      ensures r == id && container == old(container) && trace == old(trace)
      ensures old(id).Some? ==> id == old(id)
      ensures old(id).None? && container != null ==> id == drawn
      ensures old(id).None? && container == null ==> id == None
    {
      if id == None {
        if container != null {
          id := drawn;
        }
      }
      r := id;
    }

    /**
     * SetContainer: binding a pipeline then asks for an id (kept if the
     * module already has one); unbinding resets the id to invalid.
     */
    method SetContainer(c: Pipeline?, drawn: Option<bv64>)
      modifies this
      ensures container == c && trace == old(trace)
      ensures c == null ==> id == None
      ensures c != null && old(id).Some? ==> id == old(id)
      ensures c != null && old(id).None? ==> id == drawn
    {
      if c != null {
        container := c;
        var _ := GetId(drawn);
      } else {
        container := null;
        id := None;
      }
    }

    /**
     * DoTransmitData: an EOS frame that has a parent and whose own stream is
     * marked removed clears that stream's removal entry. Then the frame goes
     * to the pipeline (ProvideData's result, provideRet, is returned) or,
     * with no pipeline, to the observer when the module transmits itself,
     * returning 0.
     */
    method DoTransmitData(data: FrameInfo, reg: StreamRegistries, provideRet: int) returns (ret: int)
      modifies this, reg
      ensures id == old(id) && container == old(container)
      ensures reg.eos == old(reg.eos)
      ensures reg.removed == ClearedOnEos(old(reg.removed), data.streamId, data.IsEos(), data.payload != null)
      ensures container != null ==> ret == provideRet && trace == old(trace) + [Provided(data)]
      ensures container == null ==> ret == 0 && trace == old(trace) + (if hasTransmit then [Notified(data)] else [])
    {
      if data.IsEos() && data.payload != null {
        var removed := reg.IsStreamRemoved(data.streamId);
        if removed {
          reg.SetStreamRemoved(data.streamId, false);
        }
      }
      if container != null {
        trace := trace + [Provided(data)];
        ret := provideRet;
      } else {
        if hasTransmit {
          trace := trace + [Notified(data)];
        }
        ret := 0;
      }
    }

    /**
     * DoProcess. A frame whose stream is not removed but whose parent's stream
     * is gets its own stream marked removed and is treated as removed.
     * Pipeline-routed modules: a non-EOS frame runs Process (result
     * processRet) unless removed, a non-zero result is returned as is, and
     * otherwise the frame is transmitted; an EOS frame runs OnEos and is
     * transmitted. Self-transmitting modules: a removed frame gets the REMOVED
     * bit, and Process's result is returned without transmitting.
     */
    method DoProcess(data: FrameInfo, reg: StreamRegistries, processRet: int, provideRet: int) returns (ret: int)
      modifies this, data, reg
      ensures id == old(id) && container == old(container) && reg.eos == old(reg.eos)
      ensures var marked := MarkedRemoved(old(reg.removed), old(data.streamId), old(ParentStreamId(data)));
        hasTransmit ==>
          && ret == processRet
          && trace == old(trace) + [Processed(data)]
          && reg.removed == marked
          && data.View() == old(data.View()).(flags := if RemovedIn(marked, old(data.streamId)) then SetFlag(old(data.flags), Removed) else old(data.flags))
      ensures !hasTransmit ==> data.View() == old(data.View())
      ensures var marked := MarkedRemoved(old(reg.removed), old(data.streamId), old(ParentStreamId(data)));
        !hasTransmit && !old(data.IsEos()) && !RemovedIn(marked, old(data.streamId)) && processRet != 0 ==>
          && ret == processRet
          && trace == old(trace) + [Processed(data)]
          && reg.removed == marked
      ensures var marked := MarkedRemoved(old(reg.removed), old(data.streamId), old(ParentStreamId(data)));
        !hasTransmit && !old(data.IsEos()) && !RemovedIn(marked, old(data.streamId)) && processRet == 0 ==>
          && ret == (if container != null then provideRet else 0)
          && trace == old(trace) + [Processed(data)] + (if container != null then [Provided(data)] else [])
          && reg.removed == marked
      ensures var marked := MarkedRemoved(old(reg.removed), old(data.streamId), old(ParentStreamId(data)));
        !hasTransmit && !old(data.IsEos()) && RemovedIn(marked, old(data.streamId)) ==>
          && ret == (if container != null then provideRet else 0)
          && trace == old(trace) + (if container != null then [Provided(data)] else [])
          && reg.removed == marked
      ensures var marked := MarkedRemoved(old(reg.removed), old(data.streamId), old(ParentStreamId(data)));
        !hasTransmit && old(data.IsEos()) ==>
          && ret == (if container != null then provideRet else 0)
          && trace == old(trace) + [EosHandled(old(data.streamId))] + (if container != null then [Provided(data)] else [])
          && reg.removed == ClearedOnEos(marked, old(data.streamId), true, old(data.payload) != null)
    {
      var removed := CheckRemoved(data, reg);
      if !hasTransmit {
        if !data.IsEos() {
          if !removed {
            trace := trace + [Processed(data)];
            if processRet != 0 {
              return processRet;
            }
          }
          ret := DoTransmitData(data, reg, provideRet);
        } else {
          trace := trace + [EosHandled(data.streamId)];
          ret := DoTransmitData(data, reg, provideRet);
        }
      } else {
        if removed {
          data.flags := data.flags | FlagValue(Removed);
        }
        trace := trace + [Processed(data)];
        ret := processRet;
      }
    }

    /**
     * TransmitData: true for a pipeline-routed module; for a self-transmitting
     * one, true exactly when DoTransmitData returned 0.
     */
    method TransmitData(data: FrameInfo, reg: StreamRegistries, provideRet: int) returns (ok: bool)
      modifies this, reg
      ensures id == old(id) && container == old(container) && reg.eos == old(reg.eos)
      ensures !hasTransmit ==> ok && trace == old(trace) && reg.removed == old(reg.removed)
      ensures hasTransmit ==> (ok <==> container == null || provideRet == 0)
      ensures hasTransmit ==>
        && reg.removed == ClearedOnEos(old(reg.removed), data.streamId, data.IsEos(), data.payload != null)
        && trace == old(trace) + (if container != null then [Provided(data)] else [Notified(data)])
    {
      if !hasTransmit {
        return true;
      }
      var ret := DoTransmitData(data, reg, provideRet);
      ok := ret == 0;
    }
  }
}
