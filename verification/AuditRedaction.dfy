/** Redaction of audit payloads: a bounded walk over an object graph that may share objects and hold cycles. */
module AuditRedaction {
  import opened Wrappers

  const MAX_PAYLOAD_DEPTH := 12
  const REDACTED := "[REDACTED]"

  /** The identity of an object. */
  type Id = int

  /** `Rendered` is what a decimal, UUID, date or time prints as. */
  datatype Value =
    | Null
    | Text(text: string)
    | Bool(truth: bool)
    | Int(number: int)
    | Float(float: real, finite: bool)
    | Rendered(printed: string)
    | Ref(id: Id)

  datatype Key = Str(key: string) | NotStr

  datatype Object =
    | Mapping(items: seq<(Key, Value)>)
    | Sequence(elements: seq<Value>)
    | EnumMember(value: Value)
    | Foreign(typeName: string)

  type Heap = Id -> Object

  datatype Json =
    | JNull
    | JText(text: string)
    | JBool(truth: bool)
    | JInt(number: int)
    | JFloat(float: real)
    | JObject(members: map<string, Json>)
    | JArray(items: seq<Json>)

  datatype Error = TooDeep | NotFinite | Cyclic | KeyNotString | Incompatible(typeName: string) | UrlInvalid

  datatype UrlVerdict = Signed | Plain | Malformed

  /** Which keys are redacted, and what is said of a string as a URL. */
  datatype Policy = Policy(redacts: string -> bool, url: string -> UrlVerdict)

  // ---------------------------------------------------------------- the walk

  function Room(depth: nat): nat {
    if depth > MAX_PAYLOAD_DEPTH then 0 else MAX_PAYLOAD_DEPTH + 1 - depth
  }

  function OfText(policy: Policy, s: string): Result<Json, Error> {
    match policy.url(s)
    case Signed => Ok(JText(REDACTED))
    case Plain => Ok(JText(s))
    case Malformed => Err(UrlInvalid)
  }

  /** What `_sanitize_value` gives; `seen` holds the containers on the way here. */
  function Sanitized(h: Heap, policy: Policy, v: Value, seen: set<Id>, depth: nat): Result<Json, Error>
    decreases Room(depth), 0, 0
  {
    if depth > MAX_PAYLOAD_DEPTH then Err(TooDeep)
    else
      match v
      case Null => Ok(JNull)
      case Text(s) => OfText(policy, s)
      case Bool(b) => Ok(JBool(b))
      case Int(n) => Ok(JInt(n))
      case Float(f, finite) => if finite then Ok(JFloat(f)) else Err(NotFinite)
      case Rendered(s) => Ok(JText(s))
      case Ref(id) =>
        if h(id).EnumMember? then Sanitized(h, policy, h(id).value, seen, depth + 1)
        else if id in seen then Err(Cyclic)
        else
          match h(id)
          case Mapping(items) => AsObject(SanitizedItems(h, policy, items, seen + {id}, depth + 1))
          case Sequence(elements) => AsArray(SanitizedElements(h, policy, elements, seen + {id}, depth + 1))
          case Foreign(typeName) => Err(Incompatible(typeName))
  }

  function AsObject(r: Result<map<string, Json>, Error>): Result<Json, Error> {
    match r case Ok(members) => Ok(JObject(members)) case Err(error) => Err(error)
  }

  function AsArray(r: Result<seq<Json>, Error>): Result<Json, Error> {
    match r case Ok(items) => Ok(JArray(items)) case Err(error) => Err(error)
  }

  function SanitizedItems(h: Heap, policy: Policy, items: seq<(Key, Value)>, seen: set<Id>, depth: nat)
    : Result<map<string, Json>, Error>
    decreases Room(depth), 1, |items|
  {
    if items == [] then Ok(map[])
    else
      var before := SanitizedItems(h, policy, items[..|items| - 1], seen, depth);
      var (key, value) := items[|items| - 1];
      if before.Err? then before
      else if key.NotStr? then Err(KeyNotString)
      else if policy.redacts(key.key) then Ok(before.value[key.key := JText(REDACTED)])
      else
        var one := Sanitized(h, policy, value, seen, depth);
        if one.Err? then Err(one.error) else Ok(before.value[key.key := one.value])
  }

  function SanitizedElements(h: Heap, policy: Policy, elements: seq<Value>, seen: set<Id>, depth: nat)
    : Result<seq<Json>, Error>
    decreases Room(depth), 1, |elements|
  {
    if elements == [] then Ok([])
    else
      var before := SanitizedElements(h, policy, elements[..|elements| - 1], seen, depth);
      if before.Err? then before
      else
        var one := Sanitized(h, policy, elements[|elements| - 1], seen, depth);
        if one.Err? then Err(one.error) else Ok(before.value + [one.value])
  }

  /** The walk with its one set of containers, to which every call adds and from which it removes. */
  class Sanitizer {
    var seen: set<Id>

    constructor ()
      ensures seen == {}
    {
      seen := {};
    }

    /** Ends on every graph, and leaves `seen` as it found it on every exit. */
    method SanitizeValue(h: Heap, policy: Policy, v: Value, depth: nat) returns (r: Result<Json, Error>)
      modifies this
      ensures seen == old(seen)
      ensures r == Sanitized(h, policy, v, old(seen), depth)
      decreases Room(depth), 0
    {
      if depth > MAX_PAYLOAD_DEPTH { return Err(TooDeep); }
      match v {
        case Null => return Ok(JNull);
        case Text(s) => return OfText(policy, s);
        case Bool(b) => return Ok(JBool(b));
        case Int(n) => return Ok(JInt(n));
        case Float(f, finite) => return if finite then Ok(JFloat(f)) else Err(NotFinite);
        case Rendered(s) => return Ok(JText(s));
        case Ref(id) =>
          if h(id).EnumMember? {
            r := SanitizeValue(h, policy, h(id).value, depth + 1);
            return r;
          }
          if id in seen { return Err(Cyclic); }
          if h(id).Foreign? { return Err(Incompatible(h(id).typeName)); }
          seen := seen + {id};
          if h(id).Mapping? {
            var members := SanitizeItems(h, policy, h(id).items, depth + 1);
            r := AsObject(members);
          } else {
            var items := SanitizeElements(h, policy, h(id).elements, depth + 1);
            r := AsArray(items);
          }
          seen := seen - {id};
      }
    }

    method SanitizeItems(h: Heap, policy: Policy, items: seq<(Key, Value)>, depth: nat)
      returns (r: Result<map<string, Json>, Error>)
      modifies this
      ensures seen == old(seen)
      ensures r == SanitizedItems(h, policy, items, old(seen), depth)
      decreases Room(depth), 1
    {
      var sanitized: map<string, Json> := map[];
      for i := 0 to |items|
        invariant seen == old(seen)
        invariant SanitizedItems(h, policy, items[..i], seen, depth) == Ok(sanitized)
      {
        ItemsErrorStays(h, policy, items, seen, depth, i + 1);
        assert items[..i + 1][..i] == items[..i];
        var (key, value) := items[i];
        if key.NotStr? { return Err(KeyNotString); }
        if policy.redacts(key.key) {
          sanitized := sanitized[key.key := JText(REDACTED)];
        } else {
          var one := SanitizeValue(h, policy, value, depth);
          if one.Err? { return Err(one.error); }
          sanitized := sanitized[key.key := one.value];
        }
      }
      assert items[..|items|] == items;
      return Ok(sanitized);
    }

    method SanitizeElements(h: Heap, policy: Policy, elements: seq<Value>, depth: nat)
      returns (r: Result<seq<Json>, Error>)
      modifies this
      ensures seen == old(seen)
      ensures r == SanitizedElements(h, policy, elements, old(seen), depth)
      decreases Room(depth), 1
    {
      var sanitized: seq<Json> := [];
      for i := 0 to |elements|
        invariant seen == old(seen)
        invariant SanitizedElements(h, policy, elements[..i], seen, depth) == Ok(sanitized)
      {
        ElementsErrorStays(h, policy, elements, seen, depth, i + 1);
        assert elements[..i + 1][..i] == elements[..i];
        var one := SanitizeValue(h, policy, elements[i], depth);
        if one.Err? { return Err(one.error); }
        sanitized := sanitized + [one.value];
      }
      assert elements[..|elements|] == elements;
      return Ok(sanitized);
    }
  }

  lemma {:induction false} ItemsErrorStays(h: Heap, policy: Policy, items: seq<(Key, Value)>, seen: set<Id>,
                                           depth: nat, n: nat)
    requires n <= |items|
    ensures SanitizedItems(h, policy, items[..n], seen, depth).Err? ==>
              SanitizedItems(h, policy, items, seen, depth) == SanitizedItems(h, policy, items[..n], seen, depth)
    decreases |items|
  {
    if n < |items| {
      ItemsErrorStays(h, policy, items[..|items| - 1], seen, depth, n);
      assert items[..|items| - 1][..n] == items[..n];
    } else {
      assert items[..n] == items;
    }
  }

  lemma {:induction false} ElementsErrorStays(h: Heap, policy: Policy, elements: seq<Value>, seen: set<Id>,
                                              depth: nat, n: nat)
    requires n <= |elements|
    ensures SanitizedElements(h, policy, elements[..n], seen, depth).Err? ==>
              SanitizedElements(h, policy, elements, seen, depth) ==
              SanitizedElements(h, policy, elements[..n], seen, depth)
    decreases |elements|
  {
    if n < |elements| {
      ElementsErrorStays(h, policy, elements[..|elements| - 1], seen, depth, n);
      assert elements[..|elements| - 1][..n] == elements[..n];
    } else {
      assert elements[..n] == elements;
    }
  }

  // ---------------------------------------------------------------- two payloads, one result

  /** One graph's objects renamed into the other's, no two to the same. */
  type Renaming = map<Id, Id>

  ghost predicate Injective(ren: Renaming) {
    forall i, j | i in ren && j in ren && ren[i] == ren[j] :: i == j
  }

  predicate SameValue(ren: Renaming, v: Value, w: Value) {
    if v.Ref? then w.Ref? && v.id in ren && ren[v.id] == w.id else v == w
  }

  /** Equal keys in order; below a redacted key anything may differ. */
  predicate SameItems(ren: Renaming, policy: Policy, a: seq<(Key, Value)>, b: seq<(Key, Value)>) {
    && |a| == |b|
    && forall k | 0 <= k < |a| ::
         a[k].0 == b[k].0 && (a[k].0.Str? && !policy.redacts(a[k].0.key) ==> SameValue(ren, a[k].1, b[k].1))
  }

  predicate SameElements(ren: Renaming, a: seq<Value>, b: seq<Value>) {
    |a| == |b| && forall k | 0 <= k < |a| :: SameValue(ren, a[k], b[k])
  }

  predicate SameObject(ren: Renaming, policy: Policy, a: Object, b: Object) {
    match a
    case Mapping(items) => b.Mapping? && SameItems(ren, policy, items, b.items)
    case Sequence(elements) => b.Sequence? && SameElements(ren, elements, b.elements)
    case EnumMember(value) => b.EnumMember? && SameValue(ren, value, b.value)
    case Foreign(typeName) => a == b
  }

  /** The two graphs look alike from the renamed objects on, except below redacted keys. */
  ghost predicate Alike(ren: Renaming, policy: Policy, h: Heap, g: Heap) {
    Injective(ren) && forall i | i in ren :: SameObject(ren, policy, h(i), g(ren[i]))
  }

  ghost predicate SeenAlike(ren: Renaming, seen: set<Id>, other: set<Id>) {
    && seen <= ren.Keys
    && forall i | i in ren :: i in seen <==> ren[i] in other
  }

  /** Payloads that differ only below redacted keys give the same result, or the same error. */
  lemma {:induction false} AlikeAreSanitizedAlike(ren: Renaming, policy: Policy, h: Heap, g: Heap, v: Value, w: Value,
                                                   seen: set<Id>, other: set<Id>, depth: nat)
    requires Alike(ren, policy, h, g) && SeenAlike(ren, seen, other) && SameValue(ren, v, w)
    ensures Sanitized(h, policy, v, seen, depth) == Sanitized(g, policy, w, other, depth)
    decreases Room(depth), 0, 0
  {
    if depth <= MAX_PAYLOAD_DEPTH && v.Ref? {
      var (i, j) := (v.id, w.id);
      assert SameObject(ren, policy, h(i), g(j));
      if h(i).EnumMember? {
        AlikeAreSanitizedAlike(ren, policy, h, g, h(i).value, g(j).value, seen, other, depth + 1);
      } else if i !in seen {
        assert SeenAlike(ren, seen + {i}, other + {j});
        if h(i).Mapping? {
          AlikeItems(ren, policy, h, g, h(i).items, g(j).items, seen + {i}, other + {j}, depth + 1);
        } else if h(i).Sequence? {
          AlikeElements(ren, policy, h, g, h(i).elements, g(j).elements, seen + {i}, other + {j}, depth + 1);
        }
      }
    }
  }

  lemma {:induction false} AlikeItems(ren: Renaming, policy: Policy, h: Heap, g: Heap, a: seq<(Key, Value)>,
                                      b: seq<(Key, Value)>, seen: set<Id>, other: set<Id>, depth: nat)
    requires Alike(ren, policy, h, g) && SeenAlike(ren, seen, other) && SameItems(ren, policy, a, b)
    ensures SanitizedItems(h, policy, a, seen, depth) == SanitizedItems(g, policy, b, other, depth)
    decreases Room(depth), 1, |a|
  {
    if a != [] {
      var n := |a| - 1;
      AlikeItems(ren, policy, h, g, a[..n], b[..n], seen, other, depth);
      if a[n].0.Str? && !policy.redacts(a[n].0.key) {
        AlikeAreSanitizedAlike(ren, policy, h, g, a[n].1, b[n].1, seen, other, depth);
      }
    }
  }

  lemma {:induction false} AlikeElements(ren: Renaming, policy: Policy, h: Heap, g: Heap, a: seq<Value>, b: seq<Value>,
                                         seen: set<Id>, other: set<Id>, depth: nat)
    requires Alike(ren, policy, h, g) && SeenAlike(ren, seen, other) && SameElements(ren, a, b)
    ensures SanitizedElements(h, policy, a, seen, depth) == SanitizedElements(g, policy, b, other, depth)
    decreases Room(depth), 1, |a|
  {
    if a != [] {
      var n := |a| - 1;
      AlikeElements(ren, policy, h, g, a[..n], b[..n], seen, other, depth);
      AlikeAreSanitizedAlike(ren, policy, h, g, a[n], b[n], seen, other, depth);
    }
  }

  // ---------------------------------------------------------------- which payloads are accepted

  predicate IsContainer(h: Heap, v: Value) {
    v.Ref? && (h(v.id).Mapping? || h(v.id).Sequence?)
  }

  /** Is `w` visited below `v`? Redacted members are not. */
  ghost predicate Child(h: Heap, policy: Policy, v: Value, w: Value) {
    v.Ref? &&
    match h(v.id)
    case EnumMember(value) => w == value
    case Mapping(items) => exists k :: 0 <= k < |items| && Visible(policy, items[k]) && items[k].1 == w
    case Sequence(elements) => w in elements
    case Foreign(_) => false
  }

  predicate Visible(policy: Policy, item: (Key, Value)) {
    item.0.Str? && !policy.redacts(item.0.key)
  }

  ghost predicate IsPath(h: Heap, policy: Policy, path: seq<Value>) {
    path != [] && forall k | 0 <= k < |path| - 1 :: Child(h, policy, path[k], path[k + 1])
  }

  /** A value that is fine by itself. */
  predicate LocallyFine(h: Heap, policy: Policy, v: Value) {
    match v
    case Text(s) => policy.url(s) != Malformed
    case Float(_, finite) => finite
    case Ref(id) => !h(id).Foreign? && (h(id).Mapping? ==> forall k | 0 <= k < |h(id).items| :: h(id).items[k].0.Str?)
    case _ => true
  }

  function ContainersOn(h: Heap, path: seq<Value>): set<Id> {
    set k | 0 <= k < |path| && IsContainer(h, path[k]) :: path[k].id
  }

  /** The last value of the path is neither too deep, nor a container met before, nor wrong by itself. */
  ghost predicate EndsFine(h: Heap, policy: Policy, path: seq<Value>, seen: set<Id>, depth: nat)
    requires path != []
  {
    var n := |path| - 1;
    && depth + n <= MAX_PAYLOAD_DEPTH
    && LocallyFine(h, policy, path[n])
    && (IsContainer(h, path[n]) ==> path[n].id !in seen + ContainersOn(h, path[..n]))
  }

  function SeenBelow(h: Heap, v: Value, seen: set<Id>): set<Id> {
    if IsContainer(h, v) then seen + {v.id} else seen
  }

  lemma {:induction false} ItemsOk(h: Heap, policy: Policy, items: seq<(Key, Value)>, seen: set<Id>, depth: nat, k: nat)
    requires SanitizedItems(h, policy, items, seen, depth).Ok? && k < |items|
    ensures items[k].0.Str? && (Visible(policy, items[k]) ==> Sanitized(h, policy, items[k].1, seen, depth).Ok?)
    decreases |items|
  {
    if k < |items| - 1 { ItemsOk(h, policy, items[..|items| - 1], seen, depth, k); }
  }

  lemma {:induction false} ElementsOk(h: Heap, policy: Policy, elements: seq<Value>, seen: set<Id>, depth: nat, k: nat)
    requires SanitizedElements(h, policy, elements, seen, depth).Ok? && k < |elements|
    ensures Sanitized(h, policy, elements[k], seen, depth).Ok?
    decreases |elements|
  {
    if k < |elements| - 1 { ElementsOk(h, policy, elements[..|elements| - 1], seen, depth, k); }
  }

  lemma {:induction false} ItemsFail(h: Heap, policy: Policy, items: seq<(Key, Value)>, seen: set<Id>, depth: nat)
    returns (k: nat)
    requires SanitizedItems(h, policy, items, seen, depth).Err?
    ensures k < |items|
    ensures items[k].0.NotStr? || (Visible(policy, items[k]) && Sanitized(h, policy, items[k].1, seen, depth).Err?)
    decreases |items|
  {
    if SanitizedItems(h, policy, items[..|items| - 1], seen, depth).Err? {
      k := ItemsFail(h, policy, items[..|items| - 1], seen, depth);
    } else {
      k := |items| - 1;
    }
  }

  lemma {:induction false} ElementsFail(h: Heap, policy: Policy, elements: seq<Value>, seen: set<Id>, depth: nat)
    returns (k: nat)
    requires SanitizedElements(h, policy, elements, seen, depth).Err?
    ensures k < |elements| && Sanitized(h, policy, elements[k], seen, depth).Err?
    decreases |elements|
  {
    if SanitizedElements(h, policy, elements[..|elements| - 1], seen, depth).Err? {
      k := ElementsFail(h, policy, elements[..|elements| - 1], seen, depth);
    } else {
      k := |elements| - 1;
    }
  }

  lemma AcceptedHere(h: Heap, policy: Policy, v: Value, seen: set<Id>, depth: nat)
    requires Sanitized(h, policy, v, seen, depth).Ok?
    ensures EndsFine(h, policy, [v], seen, depth)
    ensures forall w | Child(h, policy, v, w) :: Sanitized(h, policy, w, SeenBelow(h, v, seen), depth + 1).Ok?
  {
    if v.Ref? && h(v.id).Mapping? {
      var items := h(v.id).items;
      forall k | 0 <= k < |items|
        ensures items[k].0.Str?
        ensures Visible(policy, items[k]) ==> Sanitized(h, policy, items[k].1, seen + {v.id}, depth + 1).Ok?
      {
        ItemsOk(h, policy, items, seen + {v.id}, depth + 1, k);
      }
    } else if v.Ref? && h(v.id).Sequence? {
      var elements := h(v.id).elements;
      forall k | 0 <= k < |elements| ensures Sanitized(h, policy, elements[k], seen + {v.id}, depth + 1).Ok? {
        ElementsOk(h, policy, elements, seen + {v.id}, depth + 1, k);
      }
    }
  }

  lemma TailOfPath(h: Heap, policy: Policy, path: seq<Value>, seen: set<Id>, depth: nat)
    requires IsPath(h, policy, path) && |path| > 1
    ensures IsPath(h, policy, path[1..]) && Child(h, policy, path[0], path[1])
    ensures EndsFine(h, policy, path, seen, depth) <==>
            EndsFine(h, policy, path[1..], SeenBelow(h, path[0], seen), depth + 1)
  {
    var (tail, n) := (path[1..], |path| - 1);
    forall k | 0 <= k < |tail| - 1 ensures Child(h, policy, tail[k], tail[k + 1]) {
      assert Child(h, policy, path[k + 1], path[k + 2]);
    }
    assert seen + ContainersOn(h, path[..n]) == SeenBelow(h, path[0], seen) + ContainersOn(h, tail[..n - 1]) by {
      assert path[..n] == [path[0]] + tail[..n - 1];
      ContainersOfConcat(h, path[0], tail[..n - 1]);
    }
  }

  lemma ContainersOfConcat(h: Heap, v: Value, path: seq<Value>)
    ensures ContainersOn(h, [v] + path) == SeenBelow(h, v, {}) + ContainersOn(h, path)
  {
    var all := [v] + path;
    forall i | i in ContainersOn(h, path) ensures i in ContainersOn(h, all) {
      var k :| 0 <= k < |path| && IsContainer(h, path[k]) && path[k].id == i;
      assert all[k + 1] == path[k];
    }
    if IsContainer(h, v) { assert all[0] == v; }
    forall i | i in ContainersOn(h, all) ensures i in SeenBelow(h, v, {}) + ContainersOn(h, path) {
      var k :| 0 <= k < |all| && IsContainer(h, all[k]) && all[k].id == i;
      if k > 0 { assert path[k - 1] == all[k]; }
    }
  }

  lemma {:induction false} AcceptedPathsEndFine(h: Heap, policy: Policy, path: seq<Value>, seen: set<Id>, depth: nat)
    requires IsPath(h, policy, path) && Sanitized(h, policy, path[0], seen, depth).Ok?
    ensures EndsFine(h, policy, path, seen, depth)
    decreases |path|
  {
    AcceptedHere(h, policy, path[0], seen, depth);
    if |path| == 1 {
      assert path == [path[0]];
    } else {
      TailOfPath(h, policy, path, seen, depth);
      AcceptedPathsEndFine(h, policy, path[1..], SeenBelow(h, path[0], seen), depth + 1);
    }
  }

  lemma RefusedHereOrBelow(h: Heap, policy: Policy, v: Value, seen: set<Id>, depth: nat) returns (w: Value)
    requires Sanitized(h, policy, v, seen, depth).Err?
    ensures !EndsFine(h, policy, [v], seen, depth) ||
            (Child(h, policy, v, w) && Sanitized(h, policy, w, SeenBelow(h, v, seen), depth + 1).Err?)
  {
    w := v;
    if v.Ref? && depth <= MAX_PAYLOAD_DEPTH {
      if h(v.id).EnumMember? {
        w := h(v.id).value;
      } else if v.id !in seen && h(v.id).Mapping? {
        var k := ItemsFail(h, policy, h(v.id).items, seen + {v.id}, depth + 1);
        w := h(v.id).items[k].1;
      } else if v.id !in seen && h(v.id).Sequence? {
        var k := ElementsFail(h, policy, h(v.id).elements, seen + {v.id}, depth + 1);
        w := h(v.id).elements[k];
      }
    }
  }

  lemma {:induction false} RefusedHasABadPath(h: Heap, policy: Policy, v: Value, seen: set<Id>, depth: nat)
    returns (path: seq<Value>)
    requires Sanitized(h, policy, v, seen, depth).Err?
    ensures IsPath(h, policy, path) && path[0] == v && !EndsFine(h, policy, path, seen, depth)
    decreases Room(depth)
  {
    path := [v];
    if EndsFine(h, policy, [v], seen, depth) {
      var w := RefusedHereOrBelow(h, policy, v, seen, depth);
      var below := RefusedHasABadPath(h, policy, w, SeenBelow(h, v, seen), depth + 1);
      path := [v] + below;
      forall k | 0 <= k < |path| - 1 ensures Child(h, policy, path[k], path[k + 1]) {
        if k > 0 { assert Child(h, policy, below[k - 1], below[k]); }
      }
      assert path[1..] == below;
      TailOfPath(h, policy, path, seen, depth);
    }
  }

  /** A payload is accepted exactly when every path of visited values ends fine: at most twelve steps
      down, at no container met before on it, and at a value that is fine by itself. */
  lemma AcceptedIffAllPathsFine(h: Heap, policy: Policy, v: Value)
    ensures Sanitized(h, policy, v, {}, 0).Ok? <==>
            forall path | IsPath(h, policy, path) && path[0] == v :: EndsFine(h, policy, path, {}, 0)
  {
    if Sanitized(h, policy, v, {}, 0).Ok? {
      forall path | IsPath(h, policy, path) && path[0] == v ensures EndsFine(h, policy, path, {}, 0) {
        AcceptedPathsEndFine(h, policy, path, {}, 0);
      }
    } else {
      var path := RefusedHasABadPath(h, policy, v, {}, 0);
    }
  }

  // ---------------------------------------------------------------- sanitising again

  function KeysOf(items: seq<(Key, Value)>): set<string> {
    set k | 0 <= k < |items| && items[k].0.Str? :: items[k].0.key
  }

  /** The graph at `v` is the JSON value `j`, with no object inside itself. */
  ghost predicate Represents(h: Heap, v: Value, j: Json, path: set<Id>)
    decreases j
  {
    match j
    case JNull => v == Null
    case JText(s) => v == Text(s)
    case JBool(b) => v == Bool(b)
    case JInt(n) => v == Int(n)
    case JFloat(f) => v == Float(f, true)
    case JObject(members) =>
      && v.Ref? && v.id !in path && h(v.id).Mapping?
      && (forall k | 0 <= k < |h(v.id).items| :: h(v.id).items[k].0.Str?)
      && KeysOf(h(v.id).items) == members.Keys
      && forall k | 0 <= k < |h(v.id).items| ::
           var (key, value) := h(v.id).items[k];
           key.key in members && Represents(h, value, members[key.key], path + {v.id})
    case JArray(items) =>
      && v.Ref? && v.id !in path && h(v.id).Sequence?
      && |h(v.id).elements| == |items|
      && forall k | 0 <= k < |items| :: Represents(h, h(v.id).elements[k], items[k], path + {v.id})
  }

  /** What a sanitised value looks like. */
  ghost predicate Clean(policy: Policy, j: Json, depth: nat)
    decreases j
  {
    && depth <= MAX_PAYLOAD_DEPTH
    && match j
       case JText(s) => policy.url(s) == Plain
       case JObject(members) =>
         forall key | key in members ::
           if policy.redacts(key) then members[key] == JText(REDACTED) else Clean(policy, members[key], depth + 1)
       case JArray(items) => forall k | 0 <= k < |items| :: Clean(policy, items[k], depth + 1)
       case _ => true
  }

  /** A printed decimal, UUID, date or time is no URL that would be redacted or refused. */
  predicate PrintsPlainly(policy: Policy, v: Value) {
    v.Rendered? ==> policy.url(v.printed) == Plain
  }

  /** So is every printed value that the walk visits from `v` on; what is redacted does not matter. */
  ghost predicate VisitedPrintPlainly(h: Heap, policy: Policy, v: Value) {
    forall path | IsPath(h, policy, path) && path[0] == v :: PrintsPlainly(policy, path[|path| - 1])
  }

  lemma ChildrenPrintPlainly(h: Heap, policy: Policy, v: Value)
    requires VisitedPrintPlainly(h, policy, v)
    ensures PrintsPlainly(policy, v)
    ensures forall w | Child(h, policy, v, w) :: VisitedPrintPlainly(h, policy, w)
  {
    assert IsPath(h, policy, [v]);
    forall w, path | Child(h, policy, v, w) && IsPath(h, policy, path) && path[0] == w
      ensures PrintsPlainly(policy, path[|path| - 1])
    {
      var longer := [v] + path;
      assert forall k | 0 <= k < |longer| - 1 :: Child(h, policy, longer[k], longer[k + 1]) by {
        assert forall k | 0 < k < |longer| - 1 :: longer[k] == path[k - 1] && longer[k + 1] == path[k];
      }
      assert IsPath(h, policy, longer);
    }
  }

  ghost predicate CleanMembers(policy: Policy, members: map<string, Json>, depth: nat) {
    forall key | key in members ::
      if policy.redacts(key) then members[key] == JText(REDACTED) else Clean(policy, members[key], depth)
  }

  lemma {:induction false} SanitizedIsClean(h: Heap, policy: Policy, v: Value, seen: set<Id>, depth: nat)
    requires policy.url(REDACTED) == Plain && VisitedPrintPlainly(h, policy, v)
    requires Sanitized(h, policy, v, seen, depth).Ok?
    ensures Clean(policy, Sanitized(h, policy, v, seen, depth).value, depth)
    decreases Room(depth), 0, 0
  {
    ChildrenPrintPlainly(h, policy, v);
    if v.Ref? {
      if h(v.id).EnumMember? {
        SanitizedIsClean(h, policy, h(v.id).value, seen, depth + 1);
        CleanHigher(policy, Sanitized(h, policy, v, seen, depth).value, depth);
      } else if h(v.id).Mapping? {
        ItemsAreClean(h, policy, h(v.id).items, seen + {v.id}, depth + 1);
      } else {
        ElementsAreClean(h, policy, h(v.id).elements, seen + {v.id}, depth + 1);
      }
    }
  }

  lemma {:induction false} CleanHigher(policy: Policy, j: Json, depth: nat)
    requires Clean(policy, j, depth + 1)
    ensures Clean(policy, j, depth)
    decreases j
  {
    match j
    case JObject(members) =>
      forall key | key in members && !policy.redacts(key) ensures Clean(policy, members[key], depth + 1) {
        CleanHigher(policy, members[key], depth + 1);
      }
    case JArray(items) =>
      forall k | 0 <= k < |items| ensures Clean(policy, items[k], depth + 1) {
        CleanHigher(policy, items[k], depth + 1);
      }
    case _ =>
  }

  lemma {:induction false} ItemsAreClean(h: Heap, policy: Policy, items: seq<(Key, Value)>, seen: set<Id>, depth: nat)
    requires policy.url(REDACTED) == Plain
    requires forall k | 0 <= k < |items| && Visible(policy, items[k]) :: VisitedPrintPlainly(h, policy, items[k].1)
    requires SanitizedItems(h, policy, items, seen, depth).Ok?
    ensures CleanMembers(policy, SanitizedItems(h, policy, items, seen, depth).value, depth)
    decreases Room(depth), 1, |items|
  {
    if items != [] {
      var n := |items| - 1;
      ItemsAreClean(h, policy, items[..n], seen, depth);
      if Visible(policy, items[n]) { SanitizedIsClean(h, policy, items[n].1, seen, depth); }
    }
  }

  lemma {:induction false} ElementsAreClean(h: Heap, policy: Policy, elements: seq<Value>, seen: set<Id>, depth: nat)
    requires policy.url(REDACTED) == Plain
    requires forall k | 0 <= k < |elements| :: VisitedPrintPlainly(h, policy, elements[k])
    requires SanitizedElements(h, policy, elements, seen, depth).Ok?
    ensures forall j | j in SanitizedElements(h, policy, elements, seen, depth).value :: Clean(policy, j, depth)
    decreases Room(depth), 1, |elements|
  {
    if elements != [] {
      var n := |elements| - 1;
      ElementsAreClean(h, policy, elements[..n], seen, depth);
      SanitizedIsClean(h, policy, elements[n], seen, depth);
    }
  }

  lemma {:induction false} CleanIsKept(h: Heap, policy: Policy, v: Value, j: Json, seen: set<Id>, depth: nat)
    requires Represents(h, v, j, seen) && Clean(policy, j, depth)
    ensures Sanitized(h, policy, v, seen, depth) == Ok(j)
    decreases j
  {
    match j
    case JObject(members) =>
      var (items, below) := (h(v.id).items, seen + {v.id});
      forall k | 0 <= k < |items| ensures Gives(h, policy, items[k], members, below, depth + 1) {
        if Visible(policy, items[k]) {
          CleanIsKept(h, policy, items[k].1, members[items[k].0.key], below, depth + 1);
        }
      }
      ItemsGive(h, policy, items, members, below, depth + 1);
      assert SanitizedItems(h, policy, items, below, depth + 1).value == members;
    case JArray(items) =>
      var (elements, below) := (h(v.id).elements, seen + {v.id});
      forall k | 0 <= k < |elements| ensures Sanitized(h, policy, elements[k], below, depth + 1) == Ok(items[k]) {
        CleanIsKept(h, policy, elements[k], items[k], below, depth + 1);
      }
      ElementsGive(h, policy, elements, items, below, depth + 1);
    case _ =>
  }

  /** Every item gives the member that its key has in `members`. */
  ghost predicate Gives(h: Heap, policy: Policy, item: (Key, Value), members: map<string, Json>, seen: set<Id>,
                        depth: nat)
  {
    && item.0.Str? && item.0.key in members
    && if policy.redacts(item.0.key) then members[item.0.key] == JText(REDACTED)
       else Sanitized(h, policy, item.1, seen, depth) == Ok(members[item.0.key])
  }

  lemma KeysOfOneMore(items: seq<(Key, Value)>, item: (Key, Value))
    requires item.0.Str?
    ensures KeysOf(items + [item]) == KeysOf(items) + {item.0.key}
  {
    var more := items + [item];
    forall key | key in KeysOf(items) ensures key in KeysOf(more) {
      var k :| 0 <= k < |items| && items[k].0.Str? && items[k].0.key == key;
      assert more[k] == items[k];
    }
    assert more[|items|] == item;
    forall key | key in KeysOf(more) ensures key in KeysOf(items) + {item.0.key} {
      var k :| 0 <= k < |more| && more[k].0.Str? && more[k].0.key == key;
      if k < |items| { assert items[k] == more[k]; }
    }
  }

  /** The members collected so far agree with `members`. */
  predicate Agrees(some: map<string, Json>, members: map<string, Json>, keys: set<string>) {
    some.Keys == keys && forall key | key in some :: key in members && some[key] == members[key]
  }

  lemma {:induction false} ItemsGive(h: Heap, policy: Policy, items: seq<(Key, Value)>, members: map<string, Json>,
                                     seen: set<Id>, depth: nat)
    requires forall k | 0 <= k < |items| :: Gives(h, policy, items[k], members, seen, depth)
    ensures var r := SanitizedItems(h, policy, items, seen, depth);
            r.Ok? && Agrees(r.value, members, KeysOf(items))
    decreases |items|
  {
    if items != [] {
      var (before, last) := (items[..|items| - 1], items[|items| - 1]);
      ItemsGive(h, policy, before, members, seen, depth);
      assert Gives(h, policy, last, members, seen, depth);
      assert items == before + [last];
      KeysOfOneMore(before, last);
    }
  }

  lemma {:induction false} ElementsGive(h: Heap, policy: Policy, elements: seq<Value>, items: seq<Json>,
                                        seen: set<Id>, depth: nat)
    requires |elements| == |items|
    requires forall k | 0 <= k < |elements| :: Sanitized(h, policy, elements[k], seen, depth) == Ok(items[k])
    ensures SanitizedElements(h, policy, elements, seen, depth) == Ok(items)
    decreases |elements|
  {
    if elements != [] {
      var n := |elements| - 1;
      ElementsGive(h, policy, elements[..n], items[..n], seen, depth);
      assert items == items[..n] + [items[n]];
    }
  }

  /** Sanitising a sanitised payload, read back into any object graph, changes nothing. */
  lemma SanitizedAgain(h: Heap, policy: Policy, v: Value, g: Heap, w: Value)
    requires policy.url(REDACTED) == Plain && VisitedPrintPlainly(h, policy, v)
    requires Sanitized(h, policy, v, {}, 0).Ok?
    requires Represents(g, w, Sanitized(h, policy, v, {}, 0).value, {})
    ensures Sanitized(g, policy, w, {}, 0) == Sanitized(h, policy, v, {}, 0)
  {
    SanitizedIsClean(h, policy, v, {}, 0);
    CleanIsKept(g, policy, w, Sanitized(h, policy, v, {}, 0).value, {}, 0);
  }
}
