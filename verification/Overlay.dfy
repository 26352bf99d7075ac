/** Sparse candidate state over a committed vector.

Every committed vector has a parallel vector of candidate slots. A slot carries
the generation of the update that wrote it, so an update starts without
clearing anything: a slot with another tag is simply not there. The slots of
one generation are an override of the committed vector, published by copying
the touched positions, and dropped by forgetting the generation.
 */
module Overlay {
  import opened Collections

  datatype Slot<T> = Slot(generation: nat, value: T)

  /** Reading a vector past its end as the blank value. */
  function Read<T>(vector: seq<T>, blank: T, index: nat): T {
    if index < |vector| then vector[index] else blank
  }

  function Blanks<T>(blank: T, count: nat): (r: seq<T>)
    ensures |r| == count && forall i :: 0 <= i < count ==> r[i] == blank
  {
    if count == 0 then [] else Blanks(blank, count - 1) + [blank]
  }

  function GrownTo<T>(vector: seq<T>, blank: T, size: nat): (r: seq<T>)
    ensures vector <= r && |r| == if size > |vector| then size else |vector|
    ensures forall i: nat :: Read(r, blank, i) == Read(vector, blank, i)
  {
    if size > |vector| then vector + Blanks(blank, size - |vector|) else vector
  }

  class Layer<T> {
    const blank: T
    var committed: seq<T>
    var slots: seq<Slot<T>>
    /** The generation of the next update; all tags in use are smaller. */
    var generations: nat

    ghost predicate Valid()
      reads `slots, `generations
    {
      0 < generations && forall i :: 0 <= i < |slots| ==> slots[i].generation < generations
    }

    constructor (default: T)
      ensures Valid() && blank == default && committed == []
    {
      blank, committed, slots, generations := default, [], [], 1;
    }
  }

  /** The slots tagged with `generation` are exactly the override `over`. */
  ghost predicate Tagged<T>(slots: seq<Slot<T>>, generation: nat, over: map<nat, T>) {
    forall i: nat ::
      && (i in over <==> i < |slots| && slots[i].generation == generation)
      && (i in over ==> slots[i].value == over[i])
  }

  /** Growing the slots and writing one of them. */
  function Written<T>(slots: seq<Slot<T>>, blank: T, index: nat, generation: nat, value: T): (r: seq<Slot<T>>)
    ensures |r| > index
  {
    GrownTo(slots, Slot(0, blank), index + 1)[index := Slot(generation, value)]
  }

  lemma WrittenTagged<T>(slots: seq<Slot<T>>, blank: T, index: nat, generation: nat, value: T, over: map<nat, T>)
    requires 0 < generation && Tagged(slots, generation, over)
    ensures Tagged(Written(slots, blank, index, generation, value), generation, over[index := value])
  {
    var r := Written(slots, blank, index, generation, value);
    forall i: nat
      ensures i in over[index := value] <==> i < |r| && r[i].generation == generation
      ensures i in over[index := value] ==> r[i].value == over[index := value][i]
    {
      assert i != index && i < |r| ==> r[i] == Read(slots, Slot(0, blank), i);
    }
  }

  lemma WrittenBounded<T>(slots: seq<Slot<T>>, blank: T, index: nat, generation: nat, value: T, bound: nat)
    requires generation < bound && forall i :: 0 <= i < |slots| ==> slots[i].generation < bound
    ensures var r := Written(slots, blank, index, generation, value);
            forall i :: 0 <= i < |r| ==> r[i].generation < bound
  {
    var grown := GrownTo(slots, Slot(0, blank), index + 1);
    forall i: nat | i < |grown|
      ensures grown[i].generation < bound
    {
      assert grown[i] == Read(slots, Slot(0, blank), i);
    }
  }

  /** The publication loop: the touched positions are copied over. */
  method CopyOver<T>(committed: seq<T>, slots: seq<Slot<T>>, changed: seq<nat>) returns (r: seq<T>)
    requires forall i <- changed :: i < |committed| && i < |slots|
    ensures |r| == |committed|
    ensures forall i: nat :: i < |r| ==> r[i] == if i in changed then slots[i].value else committed[i]
  {
    r := committed;
    for k := 0 to |changed|
      invariant |r| == |committed|
      invariant forall i: nat :: i < |r| ==> r[i] == if i < |slots| && i in changed[..k] then slots[i].value else committed[i]
    {
      TakeNext(changed, k);
      assert changed[k] in changed;
      r := r[changed[k] := slots[changed[k]].value];
    }
    TakeAll(changed);
  }

  /** The size that makes every changed position fit. */
  method Needed(changed: seq<nat>) returns (size: nat)
    ensures forall i <- changed :: i < size
    ensures size == 0 || size - 1 in changed
  {
    size := 0;
    for k := 0 to |changed|
      invariant forall i <- changed[..k] :: i < size
      invariant size == 0 || size - 1 in changed
    {
      TakeNext(changed, k);
      if changed[k] >= size {
        size := changed[k] + 1;
      }
    }
    TakeAll(changed);
  }

  datatype Phase = Active | Prepared | Committed | Cancelled

  class LayerUpdate<T> {
    const layer: Layer<T>
    const generation: nat
    const full: bool
    var changed: seq<nat>
    var phase: Phase
    /** The logical size before prepare grew the committed vector. */
    var size: nat
    ghost const base: seq<T>
    ghost var over: map<nat, T>

    ghost predicate Valid()
      reads this, layer
    {
      && layer.Valid() && 0 < generation < layer.generations
      && Tagged(layer.slots, generation, over)
      && (forall i :: i in changed <==> i in over)
      && (phase.Active? ==> layer.committed == base)
      && (phase.Prepared? ==>
            && size == |base| <= |layer.committed| && layer.committed == GrownTo(base, layer.blank, |layer.committed|)
            && forall i <- changed :: i < |layer.committed|)
    }

    /** What this update sees at a position: its own value, else the committed
    one; a rebuild starts from blanks. */
    ghost function Sees(index: nat): T
      reads `over
    {
      if index in over then over[index] else if full then layer.blank else Read(base, layer.blank, index)
    }

    /** begin_update. Whatever earlier updates left in the slots, nothing of it is seen. */
    constructor (target: Layer<T>, reconstruct: bool)
      requires target.Valid()
      modifies target`generations
      ensures Valid() && layer == target && full == reconstruct && phase == Active && base == old(target.committed)
      ensures over == map[] && target.committed == old(target.committed)
      ensures fresh(this)
    {
      layer, full := target, reconstruct;
      generation := target.generations;
      changed, phase, size := [], Active, 0;
      base, over := target.committed, map[];
      new;
      target.generations := target.generations + 1;
    }

    /** The first touch copies the committed value into the slot, and only the first. */
    method Touch(index: nat)
      requires Valid() && phase.Active?
      modifies this, layer
      ensures Valid() && phase.Active? && layer.committed == old(layer.committed)
      ensures over == if index in old(over) then old(over) else old(over)[index := old(Sees(index))]
    {
      if index < |layer.slots| && layer.slots[index].generation == generation {
        return;
      }
      var value := if !full && index < |layer.committed| then layer.committed[index] else layer.blank;
      WrittenTagged(layer.slots, layer.blank, index, generation, value, over);
      layer.slots := Written(layer.slots, layer.blank, index, generation, value);
      changed := changed + [index];
      over := over[index := value];
    }

    method Write(index: nat, value: T)
      requires Valid() && phase.Active?
      modifies this, layer
      ensures Valid() && phase.Active? && layer.committed == old(layer.committed)
      ensures over == old(over)[index := value]
    {
      hide Tagged, Written;
      Touch(index);
      WrittenBounded(layer.slots, layer.blank, index, generation, value, layer.generations);
      WrittenTagged(layer.slots, layer.blank, index, generation, value, over);
      layer.slots := Written(layer.slots, layer.blank, index, generation, value);
      over := over[index := value];
    }

    method Get(index: nat) returns (value: T)
      requires Valid() && phase.Active?
      ensures value == Sees(index)
    {
      if index < |layer.slots| && layer.slots[index].generation == generation {
        return layer.slots[index].value;
      }
      if full || index >= |layer.committed| {
        return layer.blank;
      }
      return layer.committed[index];
    }

    /** prepare_publish grows the committed vector; when it fails, it may have grown it already. */
    method Prepare(fault: bool, partial: nat) returns (ok: bool)
      requires Valid() && phase.Active?
      modifies `phase, `size, layer`committed
      ensures Valid() && phase.Prepared? && ok == !fault && old(layer.committed) <= layer.committed
    {
      size := |layer.committed|;
      var needed := Needed(changed);
      if fault {
        layer.committed := GrownTo(layer.committed, layer.blank, if partial > needed then partial else needed);
      } else {
        layer.committed := GrownTo(layer.committed, layer.blank, needed);
      }
      phase := Prepared;
      return !fault;
    }

    /** publish_prepared: the committed vector becomes what the update sees. */
    method Publish()
      requires Valid() && phase.Prepared?
      modifies `phase, layer`committed
      ensures phase.Committed? && layer.Valid()
      ensures forall i: nat :: Read(layer.committed, layer.blank, i) == Sees(i)
    {
      var start := layer.committed;
      if full {
        start := Blanks(layer.blank, |start|);
      }
      assert forall i: nat :: Read(layer.committed, layer.blank, i) == Read(base, layer.blank, i);
      layer.committed := CopyOver(start, layer.slots, changed);
      phase := Committed;
    }

    /** cancel: contents and logical size are as before the update. */
    method Cancel()
      requires Valid() && !phase.Committed?
      modifies `phase, layer`committed
      ensures phase.Cancelled? && layer.Valid()
      ensures old(phase).Active? || old(phase).Prepared? ==> layer.committed == base
      ensures old(phase).Cancelled? ==> layer.committed == old(layer.committed)
    {
      if phase.Prepared? && |layer.committed| > size {
        layer.committed := layer.committed[..size];
      }
      phase := Cancelled;
    }
  }
}
