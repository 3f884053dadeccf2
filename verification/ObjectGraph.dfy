/**
 The accessible-object graph one helper run sees, and the neutral node the helper builds from one
 object. Every remote call is a lookup that may fail; nothing forbids cycles or shared children.
 */
module ObjectGraph {
  import opened Basics

  const MAX_NAME_BYTES := 512

  type Pid = nat
  type Id = nat

  /** A remote object reference: the owner's bus name (absent for a null reference) and a path. */
  datatype Ref = Ref(name: Option<string>, path: string)

  datatype Rect = Rect(x: int, y: int, width: nat, height: nat)

  /** Portable states, in declaration order. */
  datatype NodeState =
    | Active | Busy | Checked | Collapsed | Disabled | Editable | Expanded | Focusable | Focused | Invalid
    | Modal | Multiline | Offscreen | Pressed | Protected | ReadOnly | Required | Selected | Selectable | Visible

  const ALL_STATES: seq<NodeState> :=
    [Active, Busy, Checked, Collapsed, Disabled, Editable, Expanded, Focusable, Focused, Invalid,
     Modal, Multiline, Offscreen, Pressed, Protected, ReadOnly, Required, Selected, Selectable, Visible]

  /** The backend's own state flags, of which the helper reads these. */
  datatype Flag =
    | FActive | FBusy | FChecked | FCollapsed | FEnabled | FEditable | FExpanded | FFocusable | FFocused | FInvalid
    | FModal | FMultiline | FShowing | FPressed | FReadOnly | FRequired | FSelected | FSelectable | FVisible

  /** A portable role and whether the backend role was the password one. */
  datatype BackendRole = BackendRole(portable: nat, password: bool)

  /** Reported screen extents, before the helper narrows them. */
  datatype Extents = Extents(x: int, y: int, width: int, height: int)

  /** What one object answers; `None` is a failed call. */
  datatype Accessible = Accessible(
    children: Option<seq<Ref>>,
    role: Option<BackendRole>,
    flags: Option<set<Flag>>,
    name: Option<Text>,
    extents: Option<Extents>)

  /** One unchanging view of the accessibility bus plus the process family being inspected. */
  datatype Desktop = Desktop(
    hash: Ref -> Id,
    pids: map<string, Pid>,
    targets: set<Pid>,
    objects: map<Ref, Accessible>)
  {
    /** Whether the reference belongs to the target process family, when its owner answers. */
    function IsTarget(ref: Ref): (target: Option<bool>)
    {
      if ref.name.None? || ref.name.value !in pids then None
      else Some(pids[ref.name.value] in targets)
    }

    /** The 64-bit identity of a named reference; zero is refused. */
    function ObjectId(ref: Ref): (id: Option<Id>)
      ensures id.Some? ==> id.value == hash(ref) && id.value != 0
    {
      if ref.name.None? || hash(ref) == 0 then None else Some(hash(ref))
    }

    function Children(ref: Ref): (children: Option<seq<Ref>>)
    {
      if ref in objects then objects[ref].children else None
    }
  }

  /** One bounded, neutral node: the helper's wire form and the manager's input. */
  datatype Node = Node(
    id: Id,
    parent: Option<Id>,
    depth: nat,
    role: nat,
    name: Option<Text>,
    states: seq<NodeState>,
    bounds: Option<Rect>,
    childCount: nat)

  // ---------------------------------------------------------------- names

  predicate IsCharBoundary(text: Text, at: nat)
  {
    at == 0 || at == |text| || (at < |text| && !(0x80 <= text[at] < 0xC0))
  }

  /** The greatest character boundary at or below `at`. */
  function FloorBoundary(text: Text, at: nat): (boundary: nat)
    ensures boundary <= at && IsCharBoundary(text, boundary)
    ensures forall k :: boundary < k <= at ==> !IsCharBoundary(text, k)
  {
    if IsCharBoundary(text, at) then at else FloorBoundary(text, at - 1)
  }

  function BoundedName(text: Text): (name: Option<Text>)
    ensures name.Some? ==> 0 < |name.value| <= MAX_NAME_BYTES && name.value <= text
    ensures name.Some? ==> IsCharBoundary(text, |name.value|)
    ensures 0 < |text| <= MAX_NAME_BYTES ==> name == Some(text)
    ensures |text| > MAX_NAME_BYTES ==>
              forall k :: (if name.Some? then |name.value| else 0) < k <= MAX_NAME_BYTES ==> !IsCharBoundary(text, k)
  {
    var cut := if |text| > MAX_NAME_BYTES then text[..FloorBoundary(text, MAX_NAME_BYTES)] else text;
    if cut == [] then None else Some(cut)
  }

  /** Truncates a name at the last character boundary within the bound. */
  method BoundedText(text: Text) returns (name: Option<Text>)
    ensures name == BoundedName(text)
  {
    if text == [] {
      return None;
    }
    var value := text;
    if |value| > MAX_NAME_BYTES {
      var boundary := MAX_NAME_BYTES;
      while !IsCharBoundary(value, boundary)
        invariant 0 <= boundary <= MAX_NAME_BYTES
        invariant FloorBoundary(text, boundary) == FloorBoundary(text, MAX_NAME_BYTES)
        decreases boundary
      {
        boundary := boundary - 1;
      }
      value := value[..boundary];
    }
    name := if value != [] then Some(value) else None;
  }

  // --------------------------------------------------------------- states

  predicate Holds(state: NodeState, flags: set<Flag>, password: bool)
  {
    match state
    case Active => FActive in flags
    case Busy => FBusy in flags
    case Checked => FChecked in flags
    case Collapsed => FCollapsed in flags
    case Disabled => FEnabled !in flags
    case Editable => FEditable in flags
    case Expanded => FExpanded in flags
    case Focusable => FFocusable in flags
    case Focused => FFocused in flags
    case Invalid => FInvalid in flags
    case Modal => FModal in flags
    case Multiline => FMultiline in flags
    case Offscreen => FShowing !in flags
    case Pressed => FPressed in flags
    case Protected => password
    case ReadOnly => FReadOnly in flags
    case Required => FRequired in flags
    case Selected => FSelected in flags
    case Selectable => FSelectable in flags
    case Visible => FVisible in flags
  }

  function Rank(state: NodeState): (rank: nat)
    ensures rank < |ALL_STATES| && ALL_STATES[rank] == state
  {
    match state
    case Active => 0 case Busy => 1 case Checked => 2 case Collapsed => 3 case Disabled => 4
    case Editable => 5 case Expanded => 6 case Focusable => 7 case Focused => 8 case Invalid => 9
    case Modal => 10 case Multiline => 11 case Offscreen => 12 case Pressed => 13 case Protected => 14
    case ReadOnly => 15 case Required => 16 case Selected => 17 case Selectable => 18 case Visible => 19
  }

  lemma RankAt(rank: nat)
    requires rank < |ALL_STATES|
    ensures Rank(ALL_STATES[rank]) == rank
  {
  }

  /** The manager's test on a state list: strictly increasing in declaration order. */
  predicate OrderedStates(states: seq<NodeState>)
  {
    forall i :: 0 <= i < |states| - 1 ==> Rank(states[i]) < Rank(states[i + 1])
  }

  /** The portable states that hold, tested one after the other in declaration order from `from`. */
  function StatesFrom(from: nat, flags: set<Flag>, password: bool): (states: seq<NodeState>)
    requires from <= |ALL_STATES|
    ensures OrderedStates(states)
    ensures states != [] ==> from <= Rank(states[0])
    ensures forall s :: s in states <==> from <= Rank(s) && Holds(s, flags, password)
    decreases |ALL_STATES| - from
  {
    if from == |ALL_STATES| then []
    else
      var rest := StatesFrom(from + 1, flags, password);
      var state := ALL_STATES[from];
      RankAt(from);
      if Holds(state, flags, password) then [state] + rest else rest
  }

  // --------------------------------------------------------------- bounds

  function CheckedSub(a: int, b: int): (difference: Option<int>)
  {
    if I32_MIN <= a - b <= I32_MAX then Some(a - b) else None
  }

  /** Extents relative to the content origin; anything unusable is simply absent. */
  function ProjectedBounds(extents: Option<Extents>, origin: Rect): (bounds: Option<Rect>)
    ensures bounds.Some? ==>
              && 0 < bounds.value.width <= U16_MAX && 0 < bounds.value.height <= U16_MAX
              && I32_MIN <= bounds.value.x <= I32_MAX && I32_MIN <= bounds.value.y <= I32_MAX
              && extents == Some(Extents(bounds.value.x + origin.x, bounds.value.y + origin.y,
                                         bounds.value.width, bounds.value.height))
  {
    if extents.None? then None
    else
      var e := extents.value;
      if !(0 < e.width <= U16_MAX && 0 < e.height <= U16_MAX) then None
      else
        var x := CheckedSub(e.x, origin.x);
        var y := CheckedSub(e.y, origin.y);
        if x.None? || y.None? then None else Some(Rect(x.value, y.value, e.width, e.height))
  }

  // ---------------------------------------- what a node says of its object

  /** Every call a node needs has an answer. */
  ghost predicate Answers(d: Desktop, ref: Ref)
  {
    && ref in d.objects
    && var o := d.objects[ref];
       o.role.Some? && o.flags.Some? && o.name.Some? && o.children.Some? && |o.children.value| <= 0xFFFF_FFFF
  }

  /** The whole name up to 512 bytes, else as much of it as ends before a byte that starts a character; never an empty one. */
  ghost predicate NameReported(own: Text, name: Option<Text>)
  {
    var kept: Text := if name.Some? then name.value else [];
    && (name.Some? ==> kept != [])
    && (|own| <= 512 ==> kept == own)
    && (|own| > 512 ==>
          && |kept| <= 512 && kept == own[..|kept|]
          && (kept != [] ==> !(0x80 <= own[|kept|] < 0xC0))
          && (forall k :: |kept| < k <= 512 ==> 0x80 <= own[k] < 0xC0))
  }

  /** Each portable state exactly under the flag it stands for, in declaration order. */
  ghost predicate StatesReported(flags: set<Flag>, password: bool, states: seq<NodeState>)
  {
    && (Active in states <==> FActive in flags)
    && (Busy in states <==> FBusy in flags)
    && (Checked in states <==> FChecked in flags)
    && (Collapsed in states <==> FCollapsed in flags)
    && (Disabled in states <==> FEnabled !in flags)
    && (Editable in states <==> FEditable in flags)
    && (Expanded in states <==> FExpanded in flags)
    && (Focusable in states <==> FFocusable in flags)
    && (Focused in states <==> FFocused in flags)
    && (Invalid in states <==> FInvalid in flags)
    && (Modal in states <==> FModal in flags)
    && (Multiline in states <==> FMultiline in flags)
    && (Offscreen in states <==> FShowing !in flags)
    && (Pressed in states <==> FPressed in flags)
    && (Protected in states <==> password)
    && (ReadOnly in states <==> FReadOnly in flags)
    && (Required in states <==> FRequired in flags)
    && (Selected in states <==> FSelected in flags)
    && (Selectable in states <==> FSelectable in flags)
    && (Visible in states <==> FVisible in flags)
    && OrderedStates(states)
  }

  /** A rectangle relative to the origin exactly when the extents are nonempty and every number fits. */
  ghost predicate BoundsReported(extents: Option<Extents>, origin: Rect, bounds: Option<Rect>)
  {
    && (bounds.Some? <==>
          && extents.Some?
          && 1 <= extents.value.width <= 65535 && 1 <= extents.value.height <= 65535
          && -0x8000_0000 <= extents.value.x - origin.x < 0x8000_0000
          && -0x8000_0000 <= extents.value.y - origin.y < 0x8000_0000)
    && (bounds.Some? ==>
          && bounds.value.x == extents.value.x - origin.x && bounds.value.y == extents.value.y - origin.y
          && bounds.value.width == extents.value.width && bounds.value.height == extents.value.height)
  }

  /** What of an object a node carries, wherever in the tree it sits. */
  ghost predicate Reports(d: Desktop, origin: Rect, ref: Ref, role: nat, name: Option<Text>, states: seq<NodeState>,
                          bounds: Option<Rect>, childCount: nat)
  {
    && Answers(d, ref)
    && var o := d.objects[ref];
       && role == o.role.value.portable
       && childCount == |o.children.value|
       && NameReported(o.name.value, name)
       && StatesReported(o.flags.value, o.role.value.password, states)
       && BoundsReported(o.extents, origin, bounds)
  }

  lemma BoundedNameReports(own: Text)
    ensures NameReported(own, BoundedName(own))
  {
    var kept := if BoundedName(own).Some? then |BoundedName(own).value| else 0;
    if |own| > MAX_NAME_BYTES {
      forall k | kept < k <= MAX_NAME_BYTES ensures 0x80 <= own[k] < 0xC0 {
        assert !IsCharBoundary(own, k);
      }
    }
  }

  lemma StatesFromReports(flags: set<Flag>, password: bool)
    ensures StatesReported(flags, password, StatesFrom(0, flags, password))
  {
    var states := StatesFrom(0, flags, password);
    hide StatesReported, OrderedStates;
    HoldingIsReported(flags, password, states);
  }

  lemma HoldingIsReported(flags: set<Flag>, password: bool, states: seq<NodeState>)
    requires OrderedStates(states) && forall s :: s in states <==> Holds(s, flags, password)
    ensures StatesReported(flags, password, states)
  {
    hide OrderedStates, Rank;
  }

  lemma ProjectedBoundsReport(extents: Option<Extents>, origin: Rect)
    ensures BoundsReported(extents, origin, ProjectedBounds(extents, origin))
  {
  }
}
