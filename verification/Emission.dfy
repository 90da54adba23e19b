/**
 Emitting a model's source text, plainly and with an address and a span for every part.

 Both emitters drive an explicit stack; each is proved against a recursive definition.
 */
module Emission {
  import opened Wrappers

  // ---------- Models ----------

  datatype Value =
    | Text(text: string)
    | Model(model: GrammarModel)
    | Many(elements: seq<Value>)
    | Other(spelling: string)

  datatype GrammarModel =
    | ValueStr(value: string)                               // no bound field, only a value
    | AbstractAlternation                                   // no field at all: it has no text of its own
    | Record(emptyArm: bool, slots: seq<Slot>)              // the items of its rule's first non-empty arm

  datatype Slot =
    | Bound(field: string, value: Option<Value>)
    | StructuralLiteral(text: string)
    | Structural

  datatype Part = Part(field: string, value: Value)

  datatype Refusal = Undefined | DescendsIntoLeaf(depth: nat) | NoSuchSlot(depth: nat)

  predicate NothingSet(slots: seq<Slot>) {
    forall k :: 0 <= k < |slots| && slots[k].Bound? ==> slots[k].value.None?
  }

  function SlotParts(slots: seq<Slot>): seq<Part> {
    if slots == [] then []
    else
      var rest := SlotParts(slots[1..]);
      match slots[0]
      case Bound(field, Some(value)) => [Part(field, value)] + rest
      case Bound(_, None) => rest
      case StructuralLiteral(text) => [Part("", Text(text))] + rest
      case Structural => rest
  }

  /** A model's own emission items, tagged with their field names. */
  function EmitParts(model: GrammarModel): Result<seq<Part>, Refusal> {
    match model
    case ValueStr(value) => Ok([Part("", Text(value))])
    case AbstractAlternation => Err(Undefined)
    case Record(emptyArm, slots) => if emptyArm && NothingSet(slots) then Ok([]) else Ok(SlotParts(slots))
  }

  function ElementParts(elements: seq<Value>): seq<Part> {
    seq(|elements|, k requires 0 <= k < |elements| => Part("", elements[k]))
  }

  predicate IsLeaf(value: Value) {
    value.Text? || value.Other?
  }

  /** The named sub-parts of an emission part that is not a leaf. */
  function SubParts(value: Value): Result<seq<Part>, Refusal>
    requires !IsLeaf(value)
  {
    if value.Model? then EmitParts(value.model) else Ok(ElementParts(value.elements))
  }

  function LeafText(value: Value): string
    requires IsLeaf(value)
  {
    if value.Text? then value.text else value.spelling
  }

  // ---------- Sizes ----------

  function Size(value: Value): (size: nat)
    ensures size > 0
    decreases value
  {
    match value
    case Text(_) => 1
    case Other(_) => 1
    case Many(elements) => 1 + ElementsSize(elements)
    case Model(model) => 1 + ModelSize(model)
  }

  function ElementsSize(elements: seq<Value>): nat
    decreases elements
  {
    if elements == [] then 0 else Size(elements[0]) + ElementsSize(elements[1..])
  }

  function ModelSize(model: GrammarModel): nat
    decreases model
  {
    match model
    case ValueStr(_) => 1
    case AbstractAlternation => 0
    case Record(_, slots) => SlotsSize(slots)
  }

  function SlotsSize(slots: seq<Slot>): nat
    decreases slots
  {
    if slots == [] then 0 else SlotSize(slots[0]) + SlotsSize(slots[1..])
  }

  function SlotSize(slot: Slot): nat
    decreases slot
  {
    match slot
    case Bound(_, value) => if value.Some? then Size(value.value) else 0
    case StructuralLiteral(_) => 1
    case Structural => 0
  }

  function PartsSize(parts: seq<Part>): nat {
    if parts == [] then 0 else Size(parts[0].value) + PartsSize(parts[1..])
  }

  lemma {:induction false} SlotPartsSize(slots: seq<Slot>)
    ensures PartsSize(SlotParts(slots)) == SlotsSize(slots)
  {
    if slots != [] {
      SlotPartsSize(slots[1..]);
      var rest := SlotParts(slots[1..]);
      match slots[0]
      case Bound(field, Some(value)) => assert ([Part(field, value)] + rest)[1..] == rest;
      case Bound(_, None) =>
      case StructuralLiteral(text) => assert ([Part("", Text(text))] + rest)[1..] == rest;
      case Structural =>
    }
  }

  lemma {:induction false} ElementPartsSize(elements: seq<Value>)
    ensures PartsSize(ElementParts(elements)) == ElementsSize(elements)
  {
    if elements != [] {
      ElementPartsSize(elements[1..]);
      assert ElementParts(elements)[1..] == ElementParts(elements[1..]);
    }
  }

  lemma SubPartsSmaller(value: Value)
    requires !IsLeaf(value) && SubParts(value).Ok?
    ensures PartsSize(SubParts(value).value) < Size(value)
  {
    match value
    case Many(elements) => ElementPartsSize(elements);
    case Model(Record(_, slots)) => SlotPartsSize(slots);
    case _ =>
  }

  function Parts(value: Value): (parts: seq<Part>)
    requires !IsLeaf(value)
    ensures PartsSize(parts) < Size(value)
  {
    if SubParts(value).Ok? then
      SubPartsSmaller(value);
      SubParts(value).value
    else []
  }

  // ---------- The recursive emission ----------

  /** No abstract alternation is met while emitting. */
  predicate Emittable(value: Value)
    decreases Size(value), 0
  {
    IsLeaf(value) || (SubParts(value).Ok? && AllEmittable(Parts(value)))
  }

  predicate AllEmittable(parts: seq<Part>)
    decreases PartsSize(parts), 1
  {
    parts == [] || (Emittable(parts[0].value) && AllEmittable(parts[1..]))
  }

  function Emit(value: Value): string
    decreases Size(value), 0
  {
    if IsLeaf(value) then LeafText(value) else EmitAll(Parts(value))
  }

  function EmitAll(parts: seq<Part>): string
    decreases PartsSize(parts), 1
  {
    if parts == [] then "" else Emit(parts[0].value) + EmitAll(parts[1..])
  }

  // ---------- What a value spells ----------

  /** What a slot adds to a record's text: its field's own text, its literal, or nothing. */
  ghost function SlotText(slot: Slot): string {
    match slot
    case Bound(_, Some(value)) => Emit(value)
    case Bound(_, None) => ""
    case StructuralLiteral(text) => text
    case Structural => ""
  }

  ghost function SlotsText(slots: seq<Slot>): string {
    if slots == [] then "" else SlotsText(slots[..|slots| - 1]) + SlotText(slots[|slots| - 1])
  }

  ghost function ElementsText(elements: seq<Value>): string {
    if elements == [] then "" else ElementsText(elements[..|elements| - 1]) + Emit(elements[|elements| - 1])
  }

  /** The part a slot adds to a record's parts, tagged with its field's name. */
  ghost predicate IsSlotPart(slot: Slot, parts: seq<Part>) {
    match slot
    case Bound(field, Some(value)) => parts == [Part(field, value)]
    case StructuralLiteral(text) => parts == [Part("", Text(text))]
    case _ => parts == []
  }

  lemma {:induction false} SlotPartsAppend(slots: seq<Slot>, slot: Slot)
    ensures exists one :: IsSlotPart(slot, one) && SlotParts(slots + [slot]) == SlotParts(slots) + one
    decreases |slots|
  {
    if slots == [] {
      assert [] + [slot] == [slot] && [slot][1..] == [];
      var one := SlotParts([slot]);
      assert IsSlotPart(slot, one) && SlotParts(slots) + one == one;
    } else {
      SlotPartsAppend(slots[1..], slot);
      var one :| IsSlotPart(slot, one) && SlotParts(slots[1..] + [slot]) == SlotParts(slots[1..]) + one;
      assert (slots + [slot])[1..] == slots[1..] + [slot];
      assert SlotParts(slots + [slot]) == SlotParts(slots) + one;
    }
  }

  lemma {:induction false} EmitAllAppend(parts: seq<Part>, more: seq<Part>)
    ensures EmitAll(parts + more) == EmitAll(parts) + EmitAll(more)
    ensures AllEmittable(parts + more) <==> AllEmittable(parts) && AllEmittable(more)
    decreases |parts|
  {
    hide Emit, Emittable;
    if parts == [] {
      assert parts + more == more;
    } else {
      EmitAllAppend(parts[1..], more);
      assert (parts + more)[1..] == parts[1..] + more;
    }
  }

  lemma OnePart(part: Part)
    ensures EmitAll([part]) == Emit(part.value) && (AllEmittable([part]) <==> Emittable(part.value))
  {
    hide Emit, Emittable;
    assert [part][1..] == [];
    assert EmitAll([]) == "" && AllEmittable([]);
    assert EmitAll([part]) == Emit(part.value) + EmitAll([part][1..]);
  }

  lemma LiteralEmits(text: string)
    ensures Emit(Text(text)) == text && Emittable(Text(text))
  {
  }

  ghost predicate SlotEmittable(slot: Slot) {
    slot.Bound? && slot.value.Some? ==> Emittable(slot.value.value)
  }

  lemma {:induction false} SlotsSpell(slots: seq<Slot>)
    ensures EmitAll(SlotParts(slots)) == SlotsText(slots)
    ensures AllEmittable(SlotParts(slots)) <==> forall k :: 0 <= k < |slots| ==> SlotEmittable(slots[k])
    decreases |slots|
  {
    hide Emit, Emittable, EmitAll, AllEmittable;
    if slots == [] {
      NoParts();
    } else {
      var front, last := slots[..|slots| - 1], slots[|slots| - 1];
      SlotsSpell(front);
      SlotPartsAppend(front, last);
      assert front + [last] == slots;
      var one :| IsSlotPart(last, one) && SlotParts(slots) == SlotParts(front) + one;
      EmitAllAppend(SlotParts(front), one);
      NoParts();
      if one != [] {
        OnePart(one[0]);
      }
      if last.StructuralLiteral? {
        LiteralEmits(last.text);
      }
      assert forall k :: 0 <= k < |front| ==> slots[k] == front[k];
    }
  }

  lemma NoParts()
    ensures EmitAll([]) == "" && AllEmittable([]) && SlotParts([]) == []
  {
  }

  /** Some field of the record holds a value. */
  ghost predicate SomeFieldSet(slots: seq<Slot>) {
    exists slot :: slot in slots && slot.Bound? && slot.value.Some?
  }

  lemma NothingSetExactly(slots: seq<Slot>)
    ensures NothingSet(slots) <==> !SomeFieldSet(slots)
  {
    if !NothingSet(slots) {
      var k :| 0 <= k < |slots| && slots[k].Bound? && slots[k].value.Some?;
      assert slots[k] in slots;
    }
  }

  /** A record spells nothing when the empty arm may have matched and no field is set, and its slots one after the other otherwise. */
  lemma RecordSpells(emptyArm: bool, slots: seq<Slot>)
    ensures var value := Model(Record(emptyArm, slots));
            var empty := emptyArm && !SomeFieldSet(slots);
            && Emit(value) == (if empty then "" else SlotsText(slots))
            && (Emittable(value) <==> empty || forall k :: 0 <= k < |slots| ==> SlotEmittable(slots[k]))
  {
    hide SlotsText, SlotParts, EmitAll, AllEmittable, NothingSet, SomeFieldSet, SlotEmittable;
    var value := Model(Record(emptyArm, slots));
    SlotsSpell(slots);
    NoParts();
    NothingSetExactly(slots);
    assert SubParts(value) == EmitParts(value.model);
    assert Emit(value) == EmitAll(Parts(value));
  }

  /** Everything else: a run spells its elements one after the other, a leaf and a value class their own text. */
  lemma OthersSpell(elements: seq<Value>, text: string)
    ensures Emit(Many(elements)) == ElementsText(elements)
    ensures Emittable(Many(elements)) <==> forall k :: 0 <= k < |elements| ==> Emittable(elements[k])
    ensures Emit(Text(text)) == Emit(Other(text)) == Emit(Model(ValueStr(text))) == text
    ensures Emittable(Text(text)) && Emittable(Other(text)) && Emittable(Model(ValueStr(text)))
    ensures !Emittable(Model(AbstractAlternation))
  {
    ElementsSpell(elements);
    OnePart(Part("", Text(text)));
    LiteralEmits(text);
    assert SubParts(Model(ValueStr(text))) == Ok([Part("", Text(text))]);
    assert Emit(Model(ValueStr(text))) == EmitAll([Part("", Text(text))]);
    assert SubParts(Many(elements)) == Ok(ElementParts(elements));
  }

  lemma {:induction false} ElementsSpell(elements: seq<Value>)
    ensures EmitAll(ElementParts(elements)) == ElementsText(elements)
    ensures AllEmittable(ElementParts(elements)) <==> forall k :: 0 <= k < |elements| ==> Emittable(elements[k])
    decreases |elements|
  {
    hide Emit, Emittable, EmitAll, AllEmittable;
    NoParts();
    if elements != [] {
      var front, last := elements[..|elements| - 1], elements[|elements| - 1];
      ElementsSpell(front);
      assert ElementParts(elements) == ElementParts(front) + [Part("", last)];
      EmitAllAppend(ElementParts(front), [Part("", last)]);
      OnePart(Part("", last));
      assert forall k :: 0 <= k < |front| ==> elements[k] == front[k];
    } else {
      assert ElementParts(elements) == [];
    }
  }

  // ---------- The plain emitter ----------

  // The stack's top is its last entry.
  ghost function StackText(stack: seq<Value>): string {
    if stack == [] then "" else Emit(stack[|stack| - 1]) + StackText(stack[..|stack| - 1])
  }

  ghost predicate StackEmittable(stack: seq<Value>) {
    stack == [] || (Emittable(stack[|stack| - 1]) && StackEmittable(stack[..|stack| - 1]))
  }

  ghost function StackSize(stack: seq<Value>): nat {
    if stack == [] then 0 else Size(stack[|stack| - 1]) + StackSize(stack[..|stack| - 1])
  }

  // The parts in reverse, so that the first is on top.
  function Reversed(parts: seq<Part>): seq<Value> {
    if parts == [] then [] else Reversed(parts[1..]) + [parts[0].value]
  }

  lemma Push(stack: seq<Value>, value: Value)
    ensures StackText(stack + [value]) == Emit(value) + StackText(stack)
    ensures StackEmittable(stack + [value]) <==> Emittable(value) && StackEmittable(stack)
    ensures StackSize(stack + [value]) == Size(value) + StackSize(stack)
  {
    hide Emit, Emittable, Size;
    assert (stack + [value])[..|stack|] == stack;
  }

  lemma Concatenated(one: string, two: string, three: string)
    ensures one + (two + three) == (one + two) + three
  {
  }

  lemma {:induction false} PushParts(stack: seq<Value>, parts: seq<Part>)
    ensures StackText(stack + Reversed(parts)) == EmitAll(parts) + StackText(stack)
    ensures StackEmittable(stack + Reversed(parts)) <==> AllEmittable(parts) && StackEmittable(stack)
    ensures StackSize(stack + Reversed(parts)) == PartsSize(parts) + StackSize(stack)
    decreases |parts|
  {
    hide Emit, Emittable, Size, StackText, StackEmittable, StackSize;
    if parts == [] {
      assert stack + Reversed(parts) == stack;
    } else {
      var others := stack + Reversed(parts[1..]);
      PushParts(stack, parts[1..]);
      Push(others, parts[0].value);
      assert stack + Reversed(parts) == others + [parts[0].value];
      Concatenated(Emit(parts[0].value), EmitAll(parts[1..]), StackText(stack));
    }
  }

  lemma PushContainer(stack: seq<Value>, value: Value)
    requires !IsLeaf(value) && SubParts(value).Ok?
    ensures var pushed := stack + Reversed(SubParts(value).value);
            && StackText(pushed) == StackText(stack + [value])
            && (StackEmittable(pushed) <==> StackEmittable(stack + [value]))
            && StackSize(pushed) < StackSize(stack + [value])
  {
    hide StackText, StackEmittable, StackSize, EmitParts, ElementParts;
    SubPartsSmaller(value);
    PushParts(stack, SubParts(value).value);
    Push(stack, value);
  }

  lemma LeafFacts(value: Value)
    requires IsLeaf(value)
    ensures Emittable(value) && Emit(value) == LeafText(value)
  {
  }

  lemma NotEmittable(part: Value)
    requires !IsLeaf(part) && SubParts(part).Err?
    ensures !Emittable(part)
  {
  }

  lemma Empty()
    ensures StackText([]) == "" && StackEmittable([]) && WorkText([]) == "" && WorkEmittable([])
  {
  }

  /** The model's source text, on an explicit stack. */
  method ToText(value: Value) returns (r: Result<string, Refusal>)
    ensures r == if Emittable(value) then Ok(Emit(value)) else Err(Undefined)
  {
    hide *;
    var out := "";
    var stack := [value];
    Empty();
    Push([], value);
    assert [] + [value] == stack && Emit(value) + "" == Emit(value) && out + Emit(value) == Emit(value);
    while stack != []
      invariant out + StackText(stack) == Emit(value)
      invariant StackEmittable(stack) <==> Emittable(value)
      decreases StackSize(stack)
    {
      var node := stack[|stack| - 1];
      var rest := stack[..|stack| - 1];
      assert stack == rest + [node];
      Push(rest, node);
      if IsLeaf(node) {
        LeafFacts(node);
        Concatenated(out, LeafText(node), StackText(rest));
        out := out + LeafText(node);
        stack := rest;
      } else {
        var parts := SubParts(node);
        if parts.Err? {
          NotEmittable(node);
          return Err(Undefined);
        }
        PushContainer(rest, node);
        stack := rest + Reversed(parts.value);
      }
    }
    assert out + "" == out;
    r := Ok(out);
  }

  // ---------- Addresses and spans ----------

  datatype Step = Step(field: string, slot: int)

  type Address = seq<Step>

  datatype Span = Span(start: nat, end: nat)

  datatype Extent = Extent(address: Address, span: Span)

  datatype AddressedText = AddressedText(text: string, extents: seq<Extent>)

  /** The extents of `value` standing at `address`, its text starting at `at`: parents first. */
  ghost function Extents(value: Value, address: Address, at: nat): seq<Extent>
    decreases Size(value), 0
  {
    [Extent(address, Span(at, at + |Emit(value)|))]
    + if IsLeaf(value) then [] else PartExtents(Parts(value), 0, address, at)
  }

  ghost function PartExtents(parts: seq<Part>, slot: nat, address: Address, at: nat): seq<Extent>
    decreases PartsSize(parts), 1
  {
    if parts == [] then []
    else Extents(parts[0].value, address + [Step(parts[0].field, slot)], at)
         + PartExtents(parts[1..], slot + 1, address, at + |Emit(parts[0].value)|)
  }

  // ---------- The addressed emitter ----------

  datatype Work =
    | EmissionPart(part: Value, address: Address)
    | EmissionClose(slot: nat, closing: Address, start: nat)

  /**
   Reserve a container's extent and stack its close beneath its children: over any work
   that is left, working off what was stacked comes to emitting the container whole.
   */
  method OpenEmission(part: Value, address: Address, parts: seq<Part>, extents: seq<Extent>, at: nat, ghost rest: seq<Work>)
    returns (items: seq<Work>, reserved: seq<Extent>)
    requires Reserved(rest, |extents|) && !IsLeaf(part) && SubParts(part) == Ok(parts)
    ensures Reserved(rest + items, |reserved|)
    ensures Finished(rest + items, reserved, at) == Finished(rest, extents + Extents(part, address, at), at + |Emit(part)|)
    ensures WorkText(rest + items) == Emit(part) + WorkText(rest)
    ensures WorkEmittable(rest + items) <==> Emittable(part) && WorkEmittable(rest)
    ensures WorkSize(rest + items) < 2 * Size(part) + WorkSize(rest)
  {
    hide *;
    PartsOf(part);
    FinishedOnePart(rest, part, address, extents, at);
    ReservedMore(rest, |extents|, |extents| + |Extents(part, address, at)|);
    OpenContainer(rest, part, address, extents, at);
    OpenContainerText(rest, part, address, |extents|, at);
    PushWork(rest, EmissionPart(part, address));
    reserved := extents + [Extent(address, Span(at, at))];
    items := [EmissionClose(|extents|, address, at)] + Children(parts, 0, address);
  }

  // The children in reverse, so that the first is on top.
  function Children(parts: seq<Part>, slot: nat, address: Address): seq<Work> {
    if parts == [] then []
    else Children(parts[1..], slot + 1, address)
         + [EmissionPart(parts[0].value, address + [Step(parts[0].field, slot)])]
  }

  ghost predicate WorkEmittable(stack: seq<Work>) {
    stack == []
    || (var top := stack[|stack| - 1];
        (top.EmissionPart? ==> Emittable(top.part)) && WorkEmittable(stack[..|stack| - 1]))
  }

  ghost function WorkText(stack: seq<Work>): string {
    if stack == [] then ""
    else
      var top := stack[|stack| - 1];
      (if top.EmissionPart? then Emit(top.part) else "") + WorkText(stack[..|stack| - 1])
  }

  ghost function WorkSize(stack: seq<Work>): nat {
    if stack == [] then 0
    else
      var top := stack[|stack| - 1];
      (if top.EmissionPart? then 2 * Size(top.part) else 1) + WorkSize(stack[..|stack| - 1])
  }

  /** Every close on the stack names a slot already reserved. */
  ghost predicate Reserved(stack: seq<Work>, count: nat) {
    forall k :: 0 <= k < |stack| && stack[k].EmissionClose? ==> stack[k].slot < count
  }

  /** What the extents become once the stack is worked off. */
  ghost function Finished(stack: seq<Work>, extents: seq<Extent>, at: nat): seq<Extent>
    requires Reserved(stack, |extents|)
    decreases |stack|
  {
    if stack == [] then extents
    else
      var rest := stack[..|stack| - 1];
      match stack[|stack| - 1]
      case EmissionClose(slot, address, start) => Finished(rest, extents[slot := Extent(address, ClosedSpan(start, at))], at)
      case EmissionPart(part, address) => Finished(rest, extents + Extents(part, address, at), at + |Emit(part)|)
  }

  function ClosedSpan(start: nat, at: nat): Span {
    Span(start, at)
  }

  lemma {:induction false} ChildrenAreParts(parts: seq<Part>, slot: nat, address: Address)
    ensures forall k :: 0 <= k < |Children(parts, slot, address)| ==> Children(parts, slot, address)[k].EmissionPart?
    decreases |parts|
  {
    if parts != [] {
      ChildrenAreParts(parts[1..], slot + 1, address);
    }
  }

  lemma FinishedOnePart(stack: seq<Work>, part: Value, address: Address, extents: seq<Extent>, at: nat)
    requires Reserved(stack, |extents|)
    ensures Reserved(stack + [EmissionPart(part, address)], |extents|)
    ensures Finished(stack + [EmissionPart(part, address)], extents, at)
         == Finished(stack, extents + Extents(part, address, at), at + |Emit(part)|)
  {
    assert (stack + [EmissionPart(part, address)])[..|stack|] == stack;
  }

  lemma {:induction false} PushChildren(stack: seq<Work>, parts: seq<Part>, slot: nat, address: Address,
          extents: seq<Extent>, at: nat)
    requires Reserved(stack, |extents|)
    ensures Reserved(stack + Children(parts, slot, address), |extents|)
    ensures Finished(stack + Children(parts, slot, address), extents, at)
         == Finished(stack, extents + PartExtents(parts, slot, address, at), at + |EmitAll(parts)|)
    decreases |parts|
  {
    hide Finished, Extents;
    ChildrenAreParts(parts, slot, address);
    if parts == [] {
      assert stack + Children(parts, slot, address) == stack;
      assert extents + [] == extents;
    } else {
      var head, step := parts[0].value, address + [Step(parts[0].field, slot)];
      var first := Extents(head, step, at);
      var others := Children(parts[1..], slot + 1, address);
      ChildrenAreParts(parts[1..], slot + 1, address);
      PushChildren(stack, parts[1..], slot + 1, address, extents + first, at + |Emit(head)|);
      FinishedOnePart(stack + others, head, step, extents, at);
      assert stack + Children(parts, slot, address) == stack + others + [EmissionPart(head, step)];
      assert extents + first + PartExtents(parts[1..], slot + 1, address, at + |Emit(head)|)
          == extents + PartExtents(parts, slot, address, at);
    }
  }

  // What the stack's top adds to the text still to come and to the work left.
  lemma PushWork(stack: seq<Work>, top: Work)
    ensures WorkText(stack + [top]) == (if top.EmissionPart? then Emit(top.part) else "") + WorkText(stack)
    ensures WorkEmittable(stack + [top]) <==> (top.EmissionPart? ==> Emittable(top.part)) && WorkEmittable(stack)
    ensures WorkSize(stack + [top]) == (if top.EmissionPart? then 2 * Size(top.part) else 1) + WorkSize(stack)
  {
    hide Emit, Emittable, Size;
    assert (stack + [top])[..|stack|] == stack;
  }

  lemma {:induction false} PushChildrenText(stack: seq<Work>, parts: seq<Part>, slot: nat, address: Address)
    ensures WorkText(stack + Children(parts, slot, address)) == EmitAll(parts) + WorkText(stack)
    ensures WorkEmittable(stack + Children(parts, slot, address)) <==> AllEmittable(parts) && WorkEmittable(stack)
    ensures WorkSize(stack + Children(parts, slot, address)) == 2 * PartsSize(parts) + WorkSize(stack)
    decreases |parts|
  {
    hide Emit, Emittable, Size, WorkText, WorkEmittable, WorkSize;
    if parts == [] {
      assert stack + Children(parts, slot, address) == stack;
    } else {
      var others := stack + Children(parts[1..], slot + 1, address);
      var first := EmissionPart(parts[0].value, address + [Step(parts[0].field, slot)]);
      PushChildrenText(stack, parts[1..], slot + 1, address);
      PushWork(others, first);
      assert stack + Children(parts, slot, address) == others + [first];
      Concatenated(Emit(parts[0].value), EmitAll(parts[1..]), WorkText(stack));
    }
  }

  lemma ContainerExtents(part: Value, address: Address, at: nat)
    requires !IsLeaf(part)
    ensures Emit(part) == EmitAll(Parts(part))
    ensures Extents(part, address, at)
         == [Extent(address, Span(at, at + |Emit(part)|))] + PartExtents(Parts(part), 0, address, at)
  {
    hide EmitAll, PartExtents;
  }

  // Opening a container and working off its children comes to emitting it whole.
  lemma OpenContainer(rest: seq<Work>, part: Value, address: Address, extents: seq<Extent>, at: nat)
    requires Reserved(rest, |extents|) && !IsLeaf(part) && SubParts(part).Ok?
    ensures var items := [EmissionClose(|extents|, address, at)] + Children(Parts(part), 0, address);
            var reserved := extents + [Extent(address, Span(at, at))];
            && Reserved(rest, |extents + Extents(part, address, at)|) && Reserved(rest + items, |reserved|)
            && Finished(rest + items, reserved, at) == Finished(rest, extents + Extents(part, address, at), at + |Emit(part)|)
  {
    hide Finished, Extents, PartExtents, Emit, EmitAll, Children, Parts, SubParts, Size;
    var close := EmissionClose(|extents|, address, at);
    var parts := Parts(part);
    var reserved := extents + [Extent(address, Span(at, at))];
    var under := rest + [close];
    assert rest + ([close] + Children(parts, 0, address)) == under + Children(parts, 0, address);
    ReservedUnder(rest, close, |extents|);
    PushChildren(under, parts, 0, address, reserved, at);
    CloseContainer(rest, address, extents, at, PartExtents(parts, 0, address, at), at + |EmitAll(parts)|);
    ContainerExtents(part, address, at);
  }

  lemma ReservedUnder(rest: seq<Work>, close: Work, count: nat)
    requires Reserved(rest, count) && close.EmissionClose? && close.slot == count
    ensures Reserved(rest + [close], count + 1)
  {
  }

  lemma FinishedOneClose(stack: seq<Work>, slot: nat, address: Address, start: nat, extents: seq<Extent>, at: nat)
    requires Reserved(stack, |extents|) && slot < |extents|
    ensures Reserved(stack + [EmissionClose(slot, address, start)], |extents|)
    ensures Finished(stack + [EmissionClose(slot, address, start)], extents, at)
         == Finished(stack, extents[slot := Extent(address, ClosedSpan(start, at))], at)
  {
    assert (stack + [EmissionClose(slot, address, start)])[..|stack|] == stack;
  }

  lemma CloseContainer(rest: seq<Work>, address: Address, extents: seq<Extent>, at: nat, inner: seq<Extent>, end: nat)
    requires Reserved(rest, |extents|)
    ensures var filled := extents + [Extent(address, Span(at, at))] + inner;
            var closed := extents + ([Extent(address, Span(at, end))] + inner);
            && Reserved(rest + [EmissionClose(|extents|, address, at)], |filled|)
            && Reserved(rest, |closed|)
            && Finished(rest + [EmissionClose(|extents|, address, at)], filled, end) == Finished(rest, closed, end)
  {
    hide Finished;
    var filled := extents + [Extent(address, Span(at, at))] + inner;
    ReservedMore(rest, |extents|, |filled|);
    FinishedOneClose(rest, |extents|, address, at, filled, end);
    FillReserved(extents, address, at, end, inner);
  }

  lemma ReservedMore(stack: seq<Work>, fewer: nat, more: nat)
    requires Reserved(stack, fewer) && fewer <= more
    ensures Reserved(stack, more)
  {
  }

  lemma FillReserved(extents: seq<Extent>, address: Address, at: nat, end: nat, inner: seq<Extent>)
    ensures (extents + [Extent(address, Span(at, at))] + inner)[|extents| := Extent(address, ClosedSpan(at, end))]
         == extents + ([Extent(address, Span(at, end))] + inner)
  {
  }

  lemma OpenContainerText(rest: seq<Work>, part: Value, address: Address, count: nat, at: nat)
    requires !IsLeaf(part) && SubParts(part).Ok?
    ensures var begun := rest + ([EmissionClose(count, address, at)] + Children(Parts(part), 0, address));
            && WorkText(begun) == WorkText(rest + [EmissionPart(part, address)])
            && (WorkEmittable(begun) <==> WorkEmittable(rest + [EmissionPart(part, address)]))
            && WorkSize(begun) < WorkSize(rest + [EmissionPart(part, address)])
  {
    hide WorkText, WorkEmittable, WorkSize, EmitParts, ElementParts;
    var close := EmissionClose(count, address, at);
    PushWork(rest, close);
    PushWork(rest, EmissionPart(part, address));
    PushChildrenText(rest + [close], Parts(part), 0, address);
    assert rest + ([close] + Children(Parts(part), 0, address)) == (rest + [close]) + Children(Parts(part), 0, address);
    assert "" + WorkText(rest) == WorkText(rest);
  }

  lemma LeafExtents(part: Value, address: Address, at: nat)
    requires IsLeaf(part)
    ensures Emittable(part) && Emit(part) == LeafText(part)
    ensures Extents(part, address, at) == [Extent(address, Span(at, at + |LeafText(part)|))]
  {
  }

  lemma ReservedRest(rest: seq<Work>, top: Work, count: nat)
    requires Reserved(rest + [top], count)
    ensures Reserved(rest, count) && (top.EmissionClose? ==> top.slot < count)
  {
    forall k | 0 <= k < |rest| && rest[k].EmissionClose?
      ensures rest[k].slot < count
    {
      assert (rest + [top])[k] == rest[k];
    }
    assert (rest + [top])[|rest|] == top;
  }

  lemma Begin(value: Value)
    ensures Reserved([EmissionPart(value, [])], 0)
    ensures Finished([EmissionPart(value, [])], [], 0) == Extents(value, [], 0)
    ensures WorkText([EmissionPart(value, [])]) == Emit(value)
    ensures WorkEmittable([EmissionPart(value, [])]) <==> Emittable(value)
  {
    hide Finished, WorkText, WorkEmittable;
    FinishedOnePart([], EmissionPart(value, []).part, [], [], 0);
    PushWork([], EmissionPart(value, []));
    Empty();
    assert [] + [EmissionPart(value, [])] == [EmissionPart(value, [])];
    assert [] + Extents(value, [], 0) == Extents(value, [], 0);
    assert Emit(value) + "" == Emit(value);
    NothingLeft(Extents(value, [], 0), |Emit(value)|);
  }

  lemma NothingLeft(extents: seq<Extent>, at: nat)
    ensures Reserved([], |extents|) && Finished([], extents, at) == extents
  {
  }

  /** The model's text with every part's address and span, on an explicit stack. */
  method EmitAddressed(value: Value) returns (r: Result<AddressedText, Refusal>)
    ensures r == if Emittable(value) then Ok(AddressedText(Emit(value), Extents(value, [], 0))) else Err(Undefined)
  {
    hide *;
    var out := "";
    var extents: seq<Extent> := [];
    var at := 0;
    var stack := [EmissionPart(value, [])];
    Begin(value);
    assert out + Emit(value) == Emit(value);
    while stack != []
      invariant at == |out| && Reserved(stack, |extents|)
      invariant out + WorkText(stack) == Emit(value)
      invariant WorkEmittable(stack) <==> Emittable(value)
      invariant Finished(stack, extents, at) == Extents(value, [], 0)
      decreases WorkSize(stack)
    {
      var work := stack[|stack| - 1];
      var rest := stack[..|stack| - 1];
      assert stack == rest + [work];
      PushWork(rest, work);
      ReservedRest(rest, work, |extents|);
      match work {
        case EmissionClose(slot, address, start) =>
          FinishedOneClose(rest, slot, address, start, extents, at);
          extents := extents[slot := Extent(address, ClosedSpan(start, at))];
          stack := rest;
          assert "" + WorkText(rest) == WorkText(rest);
        case EmissionPart(part, address) =>
          if IsLeaf(part) {
            var text := LeafText(part);
            LeafExtents(part, address, at);
            FinishedOnePart(rest, part, address, extents, at);
            ReservedMore(rest, |extents|, |extents| + 1);
            Concatenated(out, text, WorkText(rest));
            out := out + text;
            extents := extents + [Extent(address, Span(at, at + |text|))];
            at := at + |text|;
            stack := rest;
          } else {
            var parts := SubParts(part);
            if parts.Err? {
              NotEmittable(part);
              return Err(Undefined);
            }
            FinishedOnePart(rest, part, address, extents, at);
            var items;
            items, extents := OpenEmission(part, address, parts.value, extents, at, rest);
            stack := rest + items;
          }
      }
    }
    NothingLeft(extents, at);
    Empty();
    assert out + "" == out;
    r := Ok(AddressedText(out, extents));
  }

  lemma PartsOf(value: Value)
    requires !IsLeaf(value) && SubParts(value).Ok?
    ensures Parts(value) == SubParts(value).value
  {
  }

  // ---------- Resolving an address ----------

  /** The part standing at `address`, by position alone. */
  ghost function Resolve(value: Value, address: Address): Option<Value>
    decreases |address|
  {
    if address == [] then Some(value)
    else if IsLeaf(value) || SubParts(value).Err? then None
    else
      var parts := SubParts(value).value;
      if 0 <= address[0].slot < |parts| then Resolve(parts[address[0].slot].value, address[1..]) else None
  }

  lemma {:induction false} ResolveStep(value: Value, address: Address, step: Step)
    requires Resolve(value, address).Some?
    ensures Resolve(value, address + [step]) == Resolve(Resolve(value, address).value, [step])
    decreases |address|
  {
    if address == [] {
      assert address + [step] == [step];
    } else {
      assert (address + [step])[1..] == address[1..] + [step];
      ResolveStep(SubParts(value).value[address[0].slot].value, address[1..], step);
    }
  }

  lemma {:induction false} ResolveFails(value: Value, address: Address, depth: nat)
    requires depth <= |address| && Resolve(value, address[..depth]).None?
    ensures Resolve(value, address).None?
    decreases |address|
  {
    if depth > 0 && !IsLeaf(value) && SubParts(value).Ok? && 0 <= address[0].slot < |SubParts(value).value| {
      assert address[..depth][1..] == address[1..][..depth - 1];
      ResolveFails(SubParts(value).value[address[0].slot].value, address[1..], depth - 1);
    }
  }

  /** The part standing at `address`, or the step at which resolving it is refused. */
  method Occurrence(value: Value, address: Address) returns (r: Result<Value, Refusal>)
    ensures r.Ok? ==> Resolve(value, address) == Some(r.value)
    ensures r.Err? ==> Resolve(value, address).None?
    ensures r.Err? && r.error.DescendsIntoLeaf? ==>
              var depth := r.error.depth;
              depth < |address| && Resolve(value, address[..depth]).Some? && IsLeaf(Resolve(value, address[..depth]).value)
    ensures r.Err? && r.error.NoSuchSlot? ==>
              var depth := r.error.depth;
              && depth < |address| && Resolve(value, address[..depth]).Some?
              && var parent := Resolve(value, address[..depth]).value;
                 !IsLeaf(parent) && SubParts(parent).Ok? && !(0 <= address[depth].slot < |SubParts(parent).value|)
    ensures r.Err? && r.error.Undefined? ==>
              exists depth :: 0 <= depth < |address| && Resolve(value, address[..depth]) == Some(Model(AbstractAlternation))
  {
    var part := value;
    var depth := 0;
    while depth < |address|
      invariant 0 <= depth <= |address| && Resolve(value, address[..depth]) == Some(part)
    {
      var step := address[depth];
      ResolveStep(value, address[..depth], step);
      assert address[..depth] + [step] == address[..depth + 1];
      if Resolve(value, address[..depth + 1]).None? {
        ResolveFails(value, address, depth + 1);
      }
      if IsLeaf(part) {
        return Err(DescendsIntoLeaf(depth));
      }
      var parts := SubParts(part);
      if parts.Err? {
        return Err(parts.error);
      }
      if !(0 <= step.slot < |parts.value|) {
        return Err(NoSuchSlot(depth));
      }
      part := parts.value[step.slot].value;
      depth := depth + 1;
    }
    assert address[..depth] == address;
    r := Ok(part);
  }

  // ---------- What the extents say ----------

  /** The text length of the first `k` parts. */
  ghost function Offset(parts: seq<Part>, k: nat): nat
    requires k <= |parts|
  {
    if k == 0 then 0 else |Emit(parts[0].value)| + Offset(parts[1..], k - 1)
  }

  /** A path of the steps emission assigns: slots in range, fields as the parents name them. */
  ghost predicate Assigned(value: Value, path: Address)
    decreases |path|
  {
    path == []
    || (!IsLeaf(value) && 0 <= path[0].slot < |Parts(value)|
        && Parts(value)[path[0].slot].field == path[0].field
        && Assigned(Parts(value)[path[0].slot].value, path[1..]))
  }

  /** Where the part at `path` lands when `value` starts at `at`. */
  ghost function SpanAt(value: Value, at: nat, path: Address): Span
    requires Assigned(value, path)
    decreases |path|
  {
    if path == [] then Span(at, at + |Emit(value)|)
    else SpanAt(Parts(value)[path[0].slot].value, at + Offset(Parts(value), path[0].slot), path[1..])
  }

  // The one step that leads from a container to a part of it, and the path from there.
  lemma AssignedStep(value: Value, at: nat, path: Address)
    requires Assigned(value, path) && path != []
    ensures !IsLeaf(value) && 0 <= path[0].slot < |Parts(value)|
    ensures var parts, slot := Parts(value), path[0].slot;
            && parts[slot].field == path[0].field
            && Assigned(parts[slot].value, path[1..]) && Resolve(value, path) == Resolve(parts[slot].value, path[1..])
            && SpanAt(value, at, path) == SpanAt(parts[slot].value, at + Offset(parts, slot), path[1..])
  {
    hide Emit, EmitAll, Size, PartsSize, EmitParts, ElementParts, Offset;
  }

  lemma AssignedUnder(value: Value, at: nat, step: Step, path: Address)
    requires !IsLeaf(value) && 0 <= step.slot < |Parts(value)| && Parts(value)[step.slot].field == step.field
    requires Assigned(Parts(value)[step.slot].value, path)
    ensures Assigned(value, [step] + path)
    ensures SpanAt(value, at, [step] + path) == SpanAt(Parts(value)[step.slot].value, at + Offset(Parts(value), step.slot), path)
  {
    hide Emit, EmitAll, Size, PartsSize, EmitParts, ElementParts, Offset;
    assert ([step] + path)[1..] == path;
  }

  lemma AssignedNothing(value: Value, at: nat)
    ensures Resolve(value, []) == Some(value) && Assigned(value, []) && SpanAt(value, at, []) == Span(at, at + |Emit(value)|)
  {
  }

  // ---------- Extents and paths correspond ----------

  lemma Regroup(address: Address, step: Step, path: Address)
    ensures (address + [step]) + path == address + ([step] + path)
  {
  }

  lemma HeadAndTail(path: Address)
    requires path != []
    ensures [path[0]] + path[1..] == path
  {
  }

  lemma ExtentsSplit(value: Value, address: Address, at: nat)
    ensures |Extents(value, address, at)| > 0
    ensures Extents(value, address, at)[0] == Extent(address, Span(at, at + |Emit(value)|))
    ensures Extents(value, address, at)[1..] == if IsLeaf(value) then [] else PartExtents(Parts(value), 0, address, at)
    ensures !IsLeaf(value) ==> PartsSize(Parts(value)) < Size(value)
  {
  }

  lemma PartExtentsSplit(parts: seq<Part>, from: nat, address: Address, at: nat)
    requires parts != []
    ensures var first := Extents(parts[0].value, address + [Step(parts[0].field, from)], at);
            PartExtents(parts, from, address, at) == first + PartExtents(parts[1..], from + 1, address, at + |Emit(parts[0].value)|)
    ensures Size(parts[0].value) <= PartsSize(parts) && PartsSize(parts[1..]) < PartsSize(parts)
  {
  }

  lemma PartExtentsIndex(parts: seq<Part>, from: nat, address: Address, at: nat, k: nat)
    requires parts != [] && k < |PartExtents(parts, from, address, at)|
    ensures Size(parts[0].value) <= PartsSize(parts) && PartsSize(parts[1..]) < PartsSize(parts)
    ensures var first := Extents(parts[0].value, address + [Step(parts[0].field, from)], at);
            var others := PartExtents(parts[1..], from + 1, address, at + |Emit(parts[0].value)|);
            if k < |first| then PartExtents(parts, from, address, at)[k] == first[k]
            else k - |first| < |others| && PartExtents(parts, from, address, at)[k] == others[k - |first|]
  {
    hide Extents, Emit;
  }

  lemma SomePart(parts: seq<Part>, from: nat, address: Address, at: nat)
    requires PartExtents(parts, from, address, at) != []
    ensures parts != []
  {
  }

  lemma OffsetNext(parts: seq<Part>, k: nat)
    requires k < |parts|
    ensures Offset(parts, 0) == 0 && Offset(parts, k + 1) == |Emit(parts[0].value)| + Offset(parts[1..], k)
  {
  }

  /** Every assigned path has its extent. */
  lemma {:induction false} ExtentOfPath(value: Value, address: Address, at: nat, path: Address) returns (k: nat)
    requires Assigned(value, path)
    ensures k < |Extents(value, address, at)|
    ensures Extents(value, address, at)[k] == Extent(address + path, SpanAt(value, at, path))
    decreases |path|, 0
  {
    hide *;
    k := 0;
    ExtentsSplit(value, address, at);
    if path == [] {
      AssignedNothing(value, at);
      assert address + path == address;
    } else {
      AssignedStep(value, at, path);
      var j := PartExtentOfPath(Parts(value), 0, address, at, path[0].slot, path[1..]);
      k := j + 1;
      assert Extents(value, address, at)[1..][j] == Extents(value, address, at)[k];
      Regroup(address, path[0], path[1..]);
      HeadAndTail(path);
    }
  }

  lemma {:induction false} PartExtentOfPath(parts: seq<Part>, from: nat, address: Address, at: nat, slot: nat,
          path: Address)
    returns (k: nat)
    requires slot < |parts| && Assigned(parts[slot].value, path)
    ensures k < |PartExtents(parts, from, address, at)|
    ensures PartExtents(parts, from, address, at)[k]
         == Extent((address + [Step(parts[slot].field, from + slot)]) + path, SpanAt(parts[slot].value, at + Offset(parts, slot), path))
    decreases |path|, 1, slot
  {
    hide *;
    PartExtentsSplit(parts, from, address, at);
    OffsetNext(parts, if slot == 0 then 0 else slot - 1);
    var first := Extents(parts[0].value, address + [Step(parts[0].field, from)], at);
    if slot == 0 {
      k := ExtentOfPath(parts[0].value, address + [Step(parts[0].field, from)], at, path);
    } else {
      var j := PartExtentOfPath(parts[1..], from + 1, address, at + |Emit(parts[0].value)|, slot - 1, path);
      k := |first| + j;
    }
  }

  /** Every extent is that of an assigned path. */
  lemma {:induction false} PathOfExtent(value: Value, address: Address, at: nat, k: nat) returns (path: Address)
    requires k < |Extents(value, address, at)|
    ensures Assigned(value, path)
    ensures Extents(value, address, at)[k] == Extent(address + path, SpanAt(value, at, path))
    decreases Size(value), 0
  {
    hide *;
    ExtentsSplit(value, address, at);
    if k == 0 {
      path := [];
      AssignedNothing(value, at);
      assert address + path == address;
    } else {
      assert Extents(value, address, at)[1..][k - 1] == Extents(value, address, at)[k];
      var slot, inner := PathOfPartExtent(Parts(value), 0, address, at, k - 1);
      var step := Step(Parts(value)[slot].field, slot);
      path := [step] + inner;
      AssignedUnder(value, at, step, inner);
      Regroup(address, step, inner);
    }
  }

  lemma {:induction false} PathOfPartExtent(parts: seq<Part>, from: nat, address: Address, at: nat, k: nat)
    returns (slot: nat, path: Address)
    requires k < |PartExtents(parts, from, address, at)|
    ensures slot < |parts| && Assigned(parts[slot].value, path)
    ensures PartExtents(parts, from, address, at)[k]
         == Extent((address + [Step(parts[slot].field, from + slot)]) + path, SpanAt(parts[slot].value, at + Offset(parts, slot), path))
    decreases PartsSize(parts), 1
  {
    hide *;
    SomePart(parts, from, address, at);
    PartExtentsIndex(parts, from, address, at, k);
    var first := Extents(parts[0].value, address + [Step(parts[0].field, from)], at);
    if k < |first| {
      slot := 0;
      path := PathOfExtent(parts[0].value, address + [Step(parts[0].field, from)], at, k);
      OffsetNext(parts, 0);
    } else {
      var j, inner := PathOfPartExtent(parts[1..], from + 1, address, at + |Emit(parts[0].value)|, k - |first|);
      slot, path := j + 1, inner;
      OffsetNext(parts, j);
    }
  }

  // ---------- The text under a span ----------

  lemma {:induction false} PartText(parts: seq<Part>, k: nat)
    requires k < |parts|
    ensures Offset(parts, k) + |Emit(parts[k].value)| == Offset(parts, k + 1) <= |EmitAll(parts)|
    ensures EmitAll(parts)[Offset(parts, k)..Offset(parts, k + 1)] == Emit(parts[k].value)
    ensures k + 1 == |parts| ==> Offset(parts, k + 1) == |EmitAll(parts)|
    decreases |parts|
  {
    var first, others := Emit(parts[0].value), EmitAll(parts[1..]);
    assert EmitAll(parts) == first + others;
    if k == 0 {
      assert Offset(parts[1..], 0) == 0;
      assert |parts| == 1 ==> others == "";
    } else {
      PartText(parts[1..], k - 1);
      SliceAfter(first, others, Offset(parts[1..], k - 1), Offset(parts[1..], k));
    }
  }

  lemma SliceAfter(first: string, others: string, from: nat, to: nat)
    requires from <= to <= |others|
    ensures (first + others)[|first| + from..|first| + to] == others[from..to]
  {
  }

  lemma SliceTwice(text: string, own: string, from: nat, start: nat, end: nat)
    requires from + |own| <= |text| && text[from..from + |own|] == own
    requires start <= end <= |own|
    ensures text[from + start..from + end] == own[start..end]
  {
    var window := text[from..from + |own|];
    forall k | start <= k < end
      ensures text[from + k] == own[k]
    {
      assert window[k] == own[k];
    }
  }

  lemma PartInContainer(value: Value, slot: nat)
    requires !IsLeaf(value) && slot < |Parts(value)|
    ensures var own := Emit(Parts(value)[slot].value);
            var from := Offset(Parts(value), slot);
            from + |own| <= |Emit(value)| && Emit(value)[from..from + |own|] == own
  {
    PartText(Parts(value), slot);
  }

  /** The text under a path's span is the part's own text, and resolving the path finds that part. */
  lemma {:induction false} SpanSpells(value: Value, at: nat, path: Address)
    requires Assigned(value, path)
    ensures Resolve(value, path).Some?
    ensures var span := SpanAt(value, at, path);
            && at <= span.start <= span.end <= at + |Emit(value)|
            && Emit(value)[span.start - at..span.end - at] == Emit(Resolve(value, path).value)
    decreases |path|
  {
    hide *;
    if path == [] {
      AssignedNothing(value, at);
      assert Emit(value)[0..|Emit(value)|] == Emit(value);
    } else {
      AssignedStep(value, at, path);
      var part, from := Parts(value)[path[0].slot].value, Offset(Parts(value), path[0].slot);
      PartInContainer(value, path[0].slot);
      SpanSpells(part, at + from, path[1..]);
      var span := SpanAt(value, at, path);
      SliceTwice(Emit(value), Emit(part), from, span.start - at - from, span.end - at - from);
    }
  }

  /** The parts of a container tile its span: each starts where the one before it ends. */
  lemma {:induction false} PartsTile(value: Value, at: nat, path: Address, slot: nat)
    requires Assigned(value, path)
    requires Resolve(value, path).Some? && !IsLeaf(Resolve(value, path).value)
    requires slot < |Parts(Resolve(value, path).value)|
    ensures var parts := Parts(Resolve(value, path).value);
            var step := Step(parts[slot].field, slot);
            && Assigned(value, path + [step])
            && SpanAt(value, at, path + [step]).start == SpanAt(value, at, path).start + Offset(parts, slot)
            && SpanAt(value, at, path + [step]).end == SpanAt(value, at, path).start + Offset(parts, slot + 1)
            && (slot + 1 == |parts| ==> SpanAt(value, at, path + [step]).end == SpanAt(value, at, path).end)
    decreases |path|
  {
    hide *;
    var parts := Parts(Resolve(value, path).value);
    var step := Step(parts[slot].field, slot);
    if path == [] {
      AssignedNothing(value, at);
      FirstPartsTile(value, at, slot);
      assert path + [step] == [step];
    } else {
      AssignedStep(value, at, path);
      var from := Offset(Parts(value), path[0].slot);
      var inner := Parts(value)[path[0].slot].value;
      PartsTile(inner, at + from, path[1..], slot);
      AssignedUnder(value, at, path[0], path[1..] + [step]);
      HeadAndTail(path);
      Regroup([path[0]], step, []);
      assert path + [step] == [path[0]] + (path[1..] + [step]);
    }
  }

  lemma FirstPartsTile(value: Value, at: nat, slot: nat)
    requires !IsLeaf(value) && slot < |Parts(value)|
    ensures var parts := Parts(value);
            var step := Step(parts[slot].field, slot);
            && Assigned(value, [step])
            && SpanAt(value, at, [step]) == Span(at + Offset(parts, slot), at + Offset(parts, slot + 1))
            && (slot + 1 == |parts| ==> Offset(parts, slot + 1) == |Emit(value)|)
  {
    var parts := Parts(value);
    var step := Step(parts[slot].field, slot);
    PartText(parts, slot);
    AssignedNothing(parts[slot].value, at + Offset(parts, slot));
    AssignedUnder(value, at, step, []);
    assert [step] + [] == [step];
  }

  // ---------- Document order ----------

  /** Document order on addresses: a parent before its parts, siblings by slot. */
  ghost predicate Precedes(one: Address, other: Address)
    decreases |one|
  {
    other != []
    && (one == [] || one[0].slot < other[0].slot || (one[0] == other[0] && Precedes(one[1..], other[1..])))
  }

  lemma {:induction false} PrecedesUnder(base: Address, one: Address, other: Address)
    ensures Precedes(base + one, base + other) <==> Precedes(one, other)
    decreases |base|
  {
    if base == [] {
      assert base + one == one && base + other == other;
    } else {
      assert (base + one)[1..] == base[1..] + one && (base + other)[1..] == base[1..] + other;
      PrecedesUnder(base[1..], one, other);
    }
  }

  /** Document order is strict: no address precedes itself, and no two precede each other. */
  lemma {:induction false} PrecedesIsStrict(one: Address, other: Address)
    requires Precedes(one, other)
    ensures one != other && !Precedes(other, one)
    decreases |one|
  {
    if one != [] && one[0] == other[0] {
      if one[0].slot >= other[0].slot {
        PrecedesIsStrict(one[1..], other[1..]);
      }
    }
  }

  lemma PrecedesBelow(address: Address, step: Step, path: Address)
    ensures Precedes(address, (address + [step]) + path)
  {
    Regroup(address, step, path);
    PrecedesUnder(address, [], [step] + path);
    assert address + [] == address;
  }

  lemma PrecedesSibling(address: Address, step: Step, path: Address, later: Step, other: Address)
    requires step.slot < later.slot
    ensures Precedes((address + [step]) + path, (address + [later]) + other)
  {
    Regroup(address, step, path);
    Regroup(address, later, other);
    PrecedesUnder(address, [step] + path, [later] + other);
  }

  /** Extents come in document order, so no address occurs twice. */
  lemma {:induction false} ExtentsInOrder(value: Value, address: Address, at: nat, i: nat, j: nat)
    requires i < j < |Extents(value, address, at)|
    ensures Precedes(Extents(value, address, at)[i].address, Extents(value, address, at)[j].address)
    ensures Extents(value, address, at)[i].address != Extents(value, address, at)[j].address
    decreases Size(value), 0
  {
    hide *;
    ExtentsSplit(value, address, at);
    assert Extents(value, address, at)[1..][j - 1] == Extents(value, address, at)[j];
    if i == 0 {
      var slot, path := PathOfPartExtent(Parts(value), 0, address, at, j - 1);
      PrecedesBelow(address, Step(Parts(value)[slot].field, slot), path);
    } else {
      assert Extents(value, address, at)[1..][i - 1] == Extents(value, address, at)[i];
      PartExtentsInOrder(Parts(value), 0, address, at, i - 1, j - 1);
    }
    PrecedesIsStrict(Extents(value, address, at)[i].address, Extents(value, address, at)[j].address);
  }

  lemma {:induction false} PartExtentsInOrder(parts: seq<Part>, from: nat, address: Address, at: nat, i: nat, j: nat)
    requires i < j < |PartExtents(parts, from, address, at)|
    ensures Precedes(PartExtents(parts, from, address, at)[i].address, PartExtents(parts, from, address, at)[j].address)
    decreases PartsSize(parts), 1
  {
    hide *;
    SomePart(parts, from, address, at);
    PartExtentsIndex(parts, from, address, at, i);
    PartExtentsIndex(parts, from, address, at, j);
    var step := Step(parts[0].field, from);
    var first := Extents(parts[0].value, address + [step], at);
    if j < |first| {
      ExtentsInOrder(parts[0].value, address + [step], at, i, j);
    } else if i >= |first| {
      PartExtentsInOrder(parts[1..], from + 1, address, at + |Emit(parts[0].value)|, i - |first|, j - |first|);
    } else {
      var path := PathOfExtent(parts[0].value, address + [step], at, i);
      var slot, inner := PathOfPartExtent(parts[1..], from + 1, address, at + |Emit(parts[0].value)|, j - |first|);
      PrecedesSibling(address, step, path, Step(parts[1..][slot].field, from + 1 + slot), inner);
    }
  }

  // ---------- The contract of addressed emission ----------

  /** Every extent names an occurrence whose own text is the text under its span. */
  lemma EveryExtentSpells(value: Value, k: nat)
    requires k < |Extents(value, [], 0)|
    ensures var extent := Extents(value, [], 0)[k];
            && Resolve(value, extent.address).Some?
            && extent.span.start <= extent.span.end <= |Emit(value)|
            && Emit(value)[extent.span.start..extent.span.end] == Emit(Resolve(value, extent.address).value)
  {
    hide *;
    var path := PathOfExtent(value, [], 0, k);
    assert [] + path == path;
    SpanSpells(value, 0, path);
  }

  /**
   A container's parts have extents too, one for each slot, after the container's own
   and tiling its span.
   */
  lemma EveryContainerTiles(value: Value, k: nat, slot: nat) returns (j: nat)
    requires k < |Extents(value, [], 0)|
    requires var part := Resolve(value, Extents(value, [], 0)[k].address);
             part.Some? && !IsLeaf(part.value) && slot < |Parts(part.value)|
    ensures var extent := Extents(value, [], 0)[k];
            var parts := Parts(Resolve(value, extent.address).value);
            && k < j < |Extents(value, [], 0)|
            && Extents(value, [], 0)[j].address == extent.address + [Step(parts[slot].field, slot)]
            && Extents(value, [], 0)[j].span.start == extent.span.start + Offset(parts, slot)
            && Extents(value, [], 0)[j].span.end == extent.span.start + Offset(parts, slot + 1)
            && (slot + 1 == |parts| ==> Extents(value, [], 0)[j].span.end == extent.span.end)
  {
    hide *;
    var path := PathOfExtent(value, [], 0, k);
    assert [] + path == path;
    PartsTile(value, 0, path, slot);
    var step := Step(Parts(Resolve(value, path).value)[slot].field, slot);
    j := ExtentOfPath(value, [], 0, path + [step]);
    assert [] + (path + [step]) == path + [step];
    PrecedesBelow(path, step, []);
    assert (path + [step]) + [] == path + [step];
    PrecedesIsStrict(path, path + [step]);
    if j < k {
      ExtentsInOrder(value, [], 0, j, k);
    }
  }
}
