/**
 * The capture correlator shared by the Elixir finders: one record is seeded
 * per node captured under a whole-definition name; every capture then writes
 * its text into the fields of the records whose byte span holds it, the last
 * write winning; a layout may ask that each capture only go to the first
 * such record (the `break` in `_find_classes`).
 */
module Correlator {
  import opened Wrappers
  import opened SyntaxTree

  /** How one query's captures are grouped: the capture names that seed a
      record, for each field the capture names that write it, and whether a
      capture stops at the first record that holds it. */
  datatype Layout = Layout(seedNames: set<string>, fieldNames: seq<set<string>>, firstOnly: bool)

  /** A record under construction: its whole-definition node, the capture
      name it was (last) seeded under, and the text written to each field. */
  datatype Slot = Slot(node: nat, seedName: string, fields: seq<Option<string>>)

  function Blank(n: nat): seq<Option<string>> {
    seq(n, _ => None)
  }

  function Nodes(slots: seq<Slot>): (r: seq<nat>)
    ensures |r| == |slots|
    ensures forall j | 0 <= j < |slots| :: r[j] == slots[j].node
  {
    seq(|slots|, j requires 0 <= j < |slots| => slots[j].node)
  }

  /** The seeded nodes, each once, in the order of their first seed capture:
      the key order of the Python dict indexed by node identity. */
  function SeedOrder(caps: seq<Capture>, seedNames: set<string>): (r: seq<nat>)
    ensures forall j, j' | 0 <= j < j' < |r| :: r[j] != r[j']
    ensures forall n :: n in r <==> IsSeeded(caps, seedNames, n)
  {
    if caps == [] then []
    else
      var front := SeedOrder(caps[..|caps| - 1], seedNames);
      var c := caps[|caps| - 1];
      SeededSnoc(caps, seedNames);
      if c.name in seedNames && c.node !in front then front + [c.node] else front
  }

  /** Node `n` is captured under some seed name. */
  predicate IsSeeded(caps: seq<Capture>, seedNames: set<string>, n: nat) {
    exists m | 0 <= m < |caps| :: caps[m].node == n && caps[m].name in seedNames
  }

  lemma SeededSnoc(caps: seq<Capture>, seedNames: set<string>)
    requires caps != []
    ensures forall n :: IsSeeded(caps, seedNames, n) <==>
      (IsSeeded(caps[..|caps| - 1], seedNames, n) ||
       (caps[|caps| - 1].node == n && caps[|caps| - 1].name in seedNames))
  {
    var front := caps[..|caps| - 1];
    forall n ensures IsSeeded(caps, seedNames, n) ==>
      (IsSeeded(front, seedNames, n) || (caps[|caps| - 1].node == n && caps[|caps| - 1].name in seedNames))
    {
      if IsSeeded(caps, seedNames, n) {
        var m :| 0 <= m < |caps| && caps[m].node == n && caps[m].name in seedNames;
        if m < |caps| - 1 { assert front[m] == caps[m]; }
      }
    }
    forall n | IsSeeded(front, seedNames, n) ensures IsSeeded(caps, seedNames, n) {
      var m :| 0 <= m < |front| && front[m].node == n && front[m].name in seedNames;
      assert caps[m] == front[m];
    }
  }

  /** The name of the last seed capture of node `n`: the dict entry is
      overwritten by every later seed capture of the same node. */
  function LastSeedName(caps: seq<Capture>, seedNames: set<string>, n: nat): (r: Option<string>)
    ensures r.Some? ==> r.value in seedNames
  {
    if caps == [] then None
    else
      var c := caps[|caps| - 1];
      if c.node == n && c.name in seedNames then Some(c.name)
      else LastSeedName(caps[..|caps| - 1], seedNames, n)
  }

  lemma LastSeedNameSeeded(caps: seq<Capture>, seedNames: set<string>, n: nat)
    ensures LastSeedName(caps, seedNames, n).Some? <==> IsSeeded(caps, seedNames, n)
  {
    if caps != [] {
      LastSeedNameSeeded(caps[..|caps| - 1], seedNames, n);
      SeededSnoc(caps, seedNames);
    }
  }

  /** The index of the first seeded record whose span holds node `n`. */
  function FirstHolder(t: Tree, seeds: seq<nat>, n: nat): (r: Option<nat>)
    requires n < |t| && forall j | 0 <= j < |seeds| :: seeds[j] < |t|
    ensures r.None? <==> forall j | 0 <= j < |seeds| :: !Inside(t, n, seeds[j])
    ensures r.Some? ==> r.value < |seeds| && Inside(t, n, seeds[r.value])
                        && forall j | 0 <= j < r.value :: !Inside(t, n, seeds[j])
  {
    if seeds == [] then None
    else if Inside(t, n, seeds[0]) then Some(0)
    else
      var r := FirstHolder(t, seeds[1..], n);
      if r.Some? then Some(r.value + 1) else None
  }

  /** `holder` is the earliest of `seeds` whose span holds node `n`: the
      record a `break`-ing attach loop writes. */
  predicate HeldFirstBy(t: Tree, seeds: seq<nat>, n: nat, holder: nat)
    requires n < |t|
  {
    exists p | 0 <= p < |seeds| ::
      && seeds[p] == holder
      && (forall i | 0 <= i <= p :: seeds[i] < |t|)
      && Inside(t, n, holder)
      && forall i | 0 <= i < p :: !Inside(t, n, seeds[i])
  }

  /** Capture `c` writes field `k` of record `j`. */
  predicate Writes(t: Tree, seeds: seq<nat>, layout: Layout, c: Capture, j: nat, k: nat)
    requires c.node < |t| && forall i | 0 <= i < |seeds| :: seeds[i] < |t|
    requires j < |seeds| && k < |layout.fieldNames|
  {
    && c.name in layout.fieldNames[k]
    && Inside(t, c.node, seeds[j])
    && (layout.firstOnly ==> FirstHolder(t, seeds, c.node) == Some(j))
  }

  /** The text of the last capture that writes field `k` of record `j`
      (last write wins), or None when no capture writes it. */
  function LastWrite(t: Tree, caps: seq<Capture>, seeds: seq<nat>, layout: Layout, j: nat, k: nat): Option<string>
    requires CapturesIn(t, caps) && forall i | 0 <= i < |seeds| :: seeds[i] < |t|
    requires j < |seeds| && k < |layout.fieldNames|
  {
    if caps == [] then None
    else
      var c := caps[|caps| - 1];
      if Writes(t, seeds, layout, c, j, k) then Some(t[c.node].text)
      else LastWrite(t, caps[..|caps| - 1], seeds, layout, j, k)
  }

  /** `LastWrite` finds nothing exactly when no capture writes the field,
      and otherwise the text of the last capture that does. */
  lemma LastWriteSpec(t: Tree, caps: seq<Capture>, seeds: seq<nat>, layout: Layout, j: nat, k: nat)
    requires CapturesIn(t, caps) && forall i | 0 <= i < |seeds| :: seeds[i] < |t|
    requires j < |seeds| && k < |layout.fieldNames|
    ensures LastWrite(t, caps, seeds, layout, j, k).None? <==> forall m | 0 <= m < |caps| :: !Writes(t, seeds, layout, caps[m], j, k)
    ensures LastWrite(t, caps, seeds, layout, j, k).Some? ==> exists m | 0 <= m < |caps| ::
      && Writes(t, seeds, layout, caps[m], j, k)
      && LastWrite(t, caps, seeds, layout, j, k).value == t[caps[m].node].text
      && forall m' | m < m' < |caps| :: !Writes(t, seeds, layout, caps[m'], j, k)
  {
    LastWriteNone(t, caps, seeds, layout, j, k);
    if LastWrite(t, caps, seeds, layout, j, k).Some? {
      var m := LastWriteAt(t, caps, seeds, layout, j, k);
    }
  }

  /** `LastWrite` finds nothing exactly when no capture writes the field. */
  lemma {:induction false} LastWriteNone(t: Tree, caps: seq<Capture>, seeds: seq<nat>, layout: Layout, j: nat, k: nat)
    requires CapturesIn(t, caps) && forall i | 0 <= i < |seeds| :: seeds[i] < |t|
    requires j < |seeds| && k < |layout.fieldNames|
    ensures LastWrite(t, caps, seeds, layout, j, k).None? <==> forall m | 0 <= m < |caps| :: !Writes(t, seeds, layout, caps[m], j, k)
  {
    if caps != [] {
      var front := caps[..|caps| - 1];
      assert forall m | 0 <= m < |front| :: front[m] == caps[m];
      LastWriteNone(t, front, seeds, layout, j, k);
    }
  }

  /** The capture whose text `LastWrite` finds: it writes the field and no
      later capture does. */
  lemma {:induction false} LastWriteAt(t: Tree, caps: seq<Capture>, seeds: seq<nat>, layout: Layout, j: nat, k: nat)
    returns (m: nat)
    requires CapturesIn(t, caps) && forall i | 0 <= i < |seeds| :: seeds[i] < |t|
    requires j < |seeds| && k < |layout.fieldNames|
    requires LastWrite(t, caps, seeds, layout, j, k).Some?
    ensures m < |caps| && Writes(t, seeds, layout, caps[m], j, k)
    ensures LastWrite(t, caps, seeds, layout, j, k).value == t[caps[m].node].text
    ensures forall m' | m < m' < |caps| :: !Writes(t, seeds, layout, caps[m'], j, k)
  {
    var last := |caps| - 1;
    if Writes(t, seeds, layout, caps[last], j, k) {
      m := last;
    } else {
      var front := caps[..last];
      m := LastWriteAt(t, front, seeds, layout, j, k);
      assert caps[m] == front[m];
      assert forall m' | m < m' < |front| :: caps[m'] == front[m'];
    }
  }

  /** The records the correlator builds, described record by record. */
  function Correlation(t: Tree, caps: seq<Capture>, layout: Layout): (r: seq<Slot>)
    requires CapturesIn(t, caps)
    ensures Nodes(r) == SeedOrder(caps, layout.seedNames)
    ensures forall j | 0 <= j < |r| :: r[j].node < |t| && |r[j].fields| == |layout.fieldNames|
  {
    var seeds := SeedOrder(caps, layout.seedNames);
    SeedsIn(t, caps, layout.seedNames);
    seq(|seeds|, j requires 0 <= j < |seeds| =>
      Slot(seeds[j],
           LastSeedName(caps, layout.seedNames, seeds[j]).GetOr(""),
           seq(|layout.fieldNames|, k requires 0 <= k < |layout.fieldNames| =>
             LastWrite(t, caps, seeds, layout, j, k))))
  }

  lemma SeedsIn(t: Tree, caps: seq<Capture>, seedNames: set<string>)
    requires CapturesIn(t, caps)
    ensures forall i | 0 <= i < |SeedOrder(caps, seedNames)| :: SeedOrder(caps, seedNames)[i] < |t|
  {
    var seeds := SeedOrder(caps, seedNames);
    forall i | 0 <= i < |seeds| ensures seeds[i] < |t| {
      assert IsSeeded(caps, seedNames, seeds[i]);
    }
  }

  /** Every record of the correlation is seeded by a capture, and each field
      holds the text of a capture inside the record's node. */
  lemma CorrelationSound(t: Tree, caps: seq<Capture>, layout: Layout, j: nat, k: nat)
    requires CapturesIn(t, caps)
    requires j < |Correlation(t, caps, layout)| && k < |layout.fieldNames|
    ensures var s := Correlation(t, caps, layout)[j];
      && s.seedName in layout.seedNames
      && s.node < |t|
      && (s.fields[k].Some? ==> exists m | 0 <= m < |caps| ::
            && caps[m].name in layout.fieldNames[k] && Inside(t, caps[m].node, s.node)
            && s.fields[k].value == t[caps[m].node].text
            && (layout.firstOnly ==> HeldFirstBy(t, SeedOrder(caps, layout.seedNames), caps[m].node, s.node)))
  {
    var seeds := SeedOrder(caps, layout.seedNames);
    SeedsIn(t, caps, layout.seedNames);
    assert IsSeeded(caps, layout.seedNames, seeds[j]);
    LastSeedNameSeeded(caps, layout.seedNames, seeds[j]);
    LastWriteSpec(t, caps, seeds, layout, j, k);
    var s := Correlation(t, caps, layout)[j];
    if s.fields[k].Some? {
      var m :| 0 <= m < |caps| && Writes(t, seeds, layout, caps[m], j, k)
        && s.fields[k].value == t[caps[m].node].text;
      if layout.firstOnly {
        assert HeldFirstBy(t, seeds, caps[m].node, s.node);
      }
    }
  }

  /** `fields` after a capture named `name` with text `v` wrote to it. */
  function Write(fields: seq<Option<string>>, fieldNames: seq<set<string>>, name: string, v: string): (r: seq<Option<string>>)
    requires |fields| == |fieldNames|
    ensures |r| == |fields|
  {
    seq(|fields|, k requires 0 <= k < |fields| => if name in fieldNames[k] then Some(v) else fields[k])
  }

  /** The position of `x` in `xs`, if present. */
  function IndexIn(xs: seq<nat>, x: nat): (r: Option<nat>)
    ensures r.None? <==> x !in xs
    ensures r.Some? ==> r.value < |xs| && xs[r.value] == x
  {
    if xs == [] then None
    else if xs[0] == x then Some(0)
    else
      var r := IndexIn(xs[1..], x);
      if r.Some? then Some(r.value + 1) else None
  }

  /** The slots hold, field by field, the last writes of the captures in
      `done`, and keep their nodes and seed names. */
  predicate Filled(t: Tree, done: seq<Capture>, seeds: seq<nat>, names: seq<string>, layout: Layout, slots: seq<Slot>)
    requires CapturesIn(t, done) && forall i | 0 <= i < |seeds| :: seeds[i] < |t|
  {
    && |slots| == |seeds| == |names|
    && (forall j | 0 <= j < |slots| ::
          && slots[j].node == seeds[j]
          && slots[j].seedName == names[j]
          && |slots[j].fields| == |layout.fieldNames|)
    && (forall j, k | 0 <= j < |slots| && 0 <= k < |layout.fieldNames| ::
          slots[j].fields[k] == LastWrite(t, done, seeds, layout, j, k))
  }

  /** The first loop: one blank slot per seeded node, in first-seed order. */
  method SeedSlots(caps: seq<Capture>, layout: Layout) returns (slots: seq<Slot>)
    ensures Nodes(slots) == SeedOrder(caps, layout.seedNames)
    ensures forall j | 0 <= j < |slots| ::
      slots[j].fields == Blank(|layout.fieldNames|)
      && Some(slots[j].seedName) == LastSeedName(caps, layout.seedNames, slots[j].node)
  {
    var nf := |layout.fieldNames|;
    slots := [];
    var i := 0;
    while i < |caps|
      invariant 0 <= i <= |caps|
      invariant Nodes(slots) == SeedOrder(caps[..i], layout.seedNames)
      invariant forall j | 0 <= j < |slots| ::
        slots[j].fields == Blank(nf) && Some(slots[j].seedName) == LastSeedName(caps[..i], layout.seedNames, slots[j].node)
    {
      var c := caps[i];
      assert caps[..i + 1][..i] == caps[..i] && caps[..i + 1][i] == c;
      if c.name in layout.seedNames {
        var at := IndexIn(Nodes(slots), c.node);
        if at.Some? {
          slots := slots[at.value := Slot(c.node, c.name, Blank(nf))];
        } else {
          slots := slots + [Slot(c.node, c.name, Blank(nf))];
        }
      }
      i := i + 1;
    }
    assert caps[..i] == caps;
  }

  /** Part way through the inner loop for capture `caps[i]`: the slots
      before `j` hold the last writes of `caps[..i + 1]`, the others those of
      `caps[..i]`. */
  predicate Progress(t: Tree, caps: seq<Capture>, i: nat, seeds: seq<nat>, names: seq<string>, layout: Layout,
                     slots: seq<Slot>, j: nat)
    requires CapturesIn(t, caps) && i < |caps| && forall j' | 0 <= j' < |seeds| :: seeds[j'] < |t|
  {
    && |slots| == |seeds| == |names| && j <= |slots|
    && (forall j' | 0 <= j' < |slots| ::
          && slots[j'].node == seeds[j']
          && slots[j'].seedName == names[j']
          && |slots[j'].fields| == |layout.fieldNames|)
    && (forall j', k | 0 <= j' < j && 0 <= k < |layout.fieldNames| ::
          slots[j'].fields[k] == LastWrite(t, caps[..i + 1], seeds, layout, j', k))
    && (forall j', k | j <= j' < |slots| && 0 <= k < |layout.fieldNames| ::
          slots[j'].fields[k] == LastWrite(t, caps[..i], seeds, layout, j', k))
  }

  /** A capture inside record `j`'s node, and inside no earlier record's
      under `firstOnly`, writes its text into that record's matching fields. */
  lemma AttachSlot(t: Tree, caps: seq<Capture>, i: nat, seeds: seq<nat>, names: seq<string>, layout: Layout,
                   slots: seq<Slot>, j: nat)
    requires CapturesIn(t, caps) && i < |caps| && forall j' | 0 <= j' < |seeds| :: seeds[j'] < |t|
    requires Progress(t, caps, i, seeds, names, layout, slots, j) && j < |slots|
    requires Inside(t, caps[i].node, seeds[j])
    requires layout.firstOnly ==> FirstHolder(t, seeds, caps[i].node) == Some(j)
    ensures Progress(t, caps, i, seeds, names, layout,
                     slots[j := slots[j].(fields := Write(slots[j].fields, layout.fieldNames, caps[i].name, t[caps[i].node].text))],
                     j + 1)
  {
    assert caps[..i + 1][..i] == caps[..i];
  }

  /** A capture outside record `j`'s node, or held first by another record
      under `firstOnly`, leaves record `j`'s fields as they were. */
  lemma SkipSlot(t: Tree, caps: seq<Capture>, i: nat, seeds: seq<nat>, names: seq<string>, layout: Layout,
                 slots: seq<Slot>, j: nat)
    requires CapturesIn(t, caps) && i < |caps| && forall j' | 0 <= j' < |seeds| :: seeds[j'] < |t|
    requires Progress(t, caps, i, seeds, names, layout, slots, j) && j < |slots|
    requires !Inside(t, caps[i].node, seeds[j]) || (layout.firstOnly && FirstHolder(t, seeds, caps[i].node) != Some(j))
    ensures Progress(t, caps, i, seeds, names, layout, slots, j + 1)
  {
    assert caps[..i + 1][..i] == caps[..i];
  }

  /** Once the first holder has been written under `firstOnly`, the other
      records are done as they are. */
  lemma {:induction false} SkipRest(t: Tree, caps: seq<Capture>, i: nat, seeds: seq<nat>, names: seq<string>, layout: Layout,
                                    slots: seq<Slot>, j: nat)
    requires CapturesIn(t, caps) && i < |caps| && forall j' | 0 <= j' < |seeds| :: seeds[j'] < |t|
    requires Progress(t, caps, i, seeds, names, layout, slots, j)
    requires j == |slots| || (layout.firstOnly && exists j' | 0 <= j' < j :: Inside(t, caps[i].node, seeds[j']))
    ensures Filled(t, caps[..i + 1], seeds, names, layout, slots)
    decreases |slots| - j
  {
    if j < |slots| {
      SkipSlot(t, caps, i, seeds, names, layout, slots, j);
      SkipRest(t, caps, i, seeds, names, layout, slots, j + 1);
    }
  }

  /** One pass of the inner loop: capture `caps[i]` writes its text into the
      slots whose span holds it (only the first, under `firstOnly`). */
  method AttachCapture(t: Tree, caps: seq<Capture>, i: nat, ghost seeds: seq<nat>, ghost names: seq<string>,
                       layout: Layout, slots: seq<Slot>) returns (slots': seq<Slot>)
    requires CapturesIn(t, caps) && i < |caps| && forall j | 0 <= j < |seeds| :: seeds[j] < |t|
    requires Filled(t, caps[..i], seeds, names, layout, slots)
    ensures Filled(t, caps[..i + 1], seeds, names, layout, slots')
  {
    var c := caps[i];
    slots' := slots;
    var j := 0;
    var attached := false;
    while j < |slots'| && !(layout.firstOnly && attached)
      invariant Progress(t, caps, i, seeds, names, layout, slots', j)
      invariant attached <==> exists j' | 0 <= j' < j :: Inside(t, c.node, seeds[j'])
    {
      if Inside(t, c.node, slots'[j].node) {
        assert !layout.firstOnly || FirstHolder(t, seeds, c.node) == Some(j);
        AttachSlot(t, caps, i, seeds, names, layout, slots', j);
        slots' := slots'[j := slots'[j].(fields := Write(slots'[j].fields, layout.fieldNames, c.name, t[c.node].text))];
        attached := true;
      } else {
        SkipSlot(t, caps, i, seeds, names, layout, slots', j);
      }
      j := j + 1;
    }
    SkipRest(t, caps, i, seeds, names, layout, slots', j);
  }

  /** The grouping loops of `_find_functions` and its siblings. */
  method Correlate(t: Tree, caps: seq<Capture>, layout: Layout) returns (slots: seq<Slot>)
    requires CapturesIn(t, caps)
    ensures slots == Correlation(t, caps, layout)
  {
    slots := SeedSlots(caps, layout);
    ghost var seeds := Nodes(slots);
    SeedsIn(t, caps, layout.seedNames);
    ghost var names := seq(|slots|, j requires 0 <= j < |slots| => slots[j].seedName);
    assert Filled(t, caps[..0], seeds, names, layout, slots);
    var i := 0;
    while i < |caps|
      invariant 0 <= i <= |caps|
      invariant Filled(t, caps[..i], seeds, names, layout, slots)
    {
      slots := AttachCapture(t, caps, i, seeds, names, layout, slots);
      i := i + 1;
    }
    assert caps[..i] == caps;
    ghost var want := Correlation(t, caps, layout);
    forall j | 0 <= j < |slots| ensures slots[j] == want[j] {
      assert slots[j].fields == want[j].fields;
    }
  }

  /** Python truthiness of an optional string: present and non-empty. */
  predicate Truthy(o: Option<string>) {
    o.Some? && o.value != []
  }

  /** Python's `o or d` for an optional string. */
  function Or(o: Option<string>, d: string): (r: string)
    ensures Truthy(o) ==> r == o.value
    ensures !Truthy(o) ==> r == d
  {
    if Truthy(o) then o.value else d
  }

  /** The record is emitted: every field in `required` holds a non-empty
      text (the `if name:` test of the finders). */
  predicate Keeps(s: Slot, required: set<nat>) {
    forall k | k in required :: k < |s.fields| && Truthy(s.fields[k])
  }

  /** The records that pass the emission test, in dict order. */
  function Kept(slots: seq<Slot>, required: set<nat>): (r: seq<Slot>)
    ensures |r| <= |slots|
  {
    if slots == [] then []
    else
      var front := Kept(slots[..|slots| - 1], required);
      var x := slots[|slots| - 1];
      if Keeps(x, required) then front + [x] else front
  }

  /** The kept records are exactly the records that pass the test. */
  lemma {:induction false} KeptMembers(slots: seq<Slot>, required: set<nat>)
    ensures forall x | x in Kept(slots, required) :: x in slots && Keeps(x, required)
    ensures forall x | x in slots && Keeps(x, required) :: x in Kept(slots, required)
  {
    if slots != [] {
      var front := slots[..|slots| - 1];
      KeptMembers(front, required);
      assert slots == front + [slots[|slots| - 1]];
    }
  }

  /** Filtering keeps records of distinct nodes distinct. */
  lemma {:induction false} KeptDistinct(slots: seq<Slot>, required: set<nat>)
    requires forall j, j' | 0 <= j < j' < |slots| :: slots[j].node != slots[j'].node
    ensures forall j, j' | 0 <= j < j' < |Kept(slots, required)| ::
      Kept(slots, required)[j].node != Kept(slots, required)[j'].node
  {
    if slots != [] {
      var front := slots[..|slots| - 1];
      var x := slots[|slots| - 1];
      var kf := Kept(front, required);
      KeptDistinct(front, required);
      KeptMembers(front, required);
      forall j | 0 <= j < |kf|
        ensures kf[j].node != x.node
      {
        assert kf[j] in front;
        var i :| 0 <= i < |front| && front[i] == kf[j];
        assert slots[i] == kf[j];
      }
      var r := Kept(slots, required);
      if Keeps(x, required) {
        assert r == kf + [x];
        forall j, j' | 0 <= j < j' < |r|
          ensures r[j].node != r[j'].node
        {
          if j' < |kf| {
            assert r[j] == kf[j] && r[j'] == kf[j'];
          } else {
            assert r[j] == kf[j] && r[j'] == x;
          }
        }
      } else {
        assert r == kf;
      }
    }
  }

  /** The records a finder emits, in dict order: those of the correlation
      whose required fields are all non-empty, at most one per seeded node. */
  function Emitted(t: Tree, caps: seq<Capture>, layout: Layout, required: set<nat>): (r: seq<Slot>)
    requires CapturesIn(t, caps)
    ensures |r| <= |SeedOrder(caps, layout.seedNames)|
    ensures forall j, j' | 0 <= j < j' < |r| :: r[j].node != r[j'].node
    ensures forall j | 0 <= j < |r| ::
      && r[j] in Correlation(t, caps, layout) && Keeps(r[j], required)
      && r[j].node < |t| && |r[j].fields| == |layout.fieldNames|
  {
    var slots := Correlation(t, caps, layout);
    var r := Kept(slots, required);
    KeptMembers(slots, required);
    assert forall j | 0 <= j < |r| :: r[j] in slots;
    assert forall j | 0 <= j < |slots| :: slots[j].node == Nodes(slots)[j];
    KeptDistinct(slots, required);
    r
  }

  /** A position of `s` in `slots`. */
  lemma IndexOfSlot(slots: seq<Slot>, s: Slot) returns (i: nat)
    requires s in slots
    ensures i < |slots| && slots[i] == s
  {
    i :| 0 <= i < |slots| && slots[i] == s;
  }

  /** Every record of the correlation that passes the test is emitted. */
  lemma EmittedComplete(t: Tree, caps: seq<Capture>, layout: Layout, required: set<nat>, s: Slot)
    requires CapturesIn(t, caps)
    requires s in Correlation(t, caps, layout) && Keeps(s, required)
    ensures s in Emitted(t, caps, layout, required)
  {
    KeptMembers(Correlation(t, caps, layout), required);
  }

  /** Every record belongs to the tree and has one field per layout entry. */
  predicate Fit(t: Tree, slots: seq<Slot>, layout: Layout) {
    forall j | 0 <= j < |slots| :: slots[j].node < |t| && |slots[j].fields| == |layout.fieldNames|
  }

  /** Reading one more record of the dict extends the kept records by it
      exactly when it passes the test. */
  lemma KeptPrefix(t: Tree, slots: seq<Slot>, j: nat, layout: Layout, required: set<nat>)
    requires j < |slots| && Fit(t, slots, layout)
    ensures Kept(slots[..j + 1], required) ==
      Kept(slots[..j], required) + if Keeps(slots[j], required) then [slots[j]] else []
    ensures Fit(t, Kept(slots[..j + 1], required), layout)
  {
    assert slots[..j + 1][..j] == slots[..j];
    KeptFit(t, slots[..j + 1], layout, required);
  }

  lemma KeptFit(t: Tree, slots: seq<Slot>, layout: Layout, required: set<nat>)
    requires Fit(t, slots, layout)
    ensures Fit(t, Kept(slots, required), layout)
  {
    var r := Kept(slots, required);
    KeptMembers(slots, required);
    forall i | 0 <= i < |r| ensures r[i].node < |t| && |r[i].fields| == |layout.fieldNames| {
      assert r[i] in slots;
    }
  }

  /** Every emitted record is a seeded node, and each of its fields holds
      the text of a capture of that field's names lying inside the node. */
  lemma EmittedSound(t: Tree, caps: seq<Capture>, layout: Layout, required: set<nat>, j: nat, k: nat)
    requires CapturesIn(t, caps)
    requires j < |Emitted(t, caps, layout, required)| && k < |layout.fieldNames|
    ensures var s := Emitted(t, caps, layout, required)[j];
      && IsSeeded(caps, layout.seedNames, s.node)
      && Some(s.seedName) == LastSeedName(caps, layout.seedNames, s.node)
      && (s.fields[k].Some? ==> exists m | 0 <= m < |caps| ::
            && caps[m].name in layout.fieldNames[k] && Inside(t, caps[m].node, s.node)
            && s.fields[k].value == t[caps[m].node].text
            && (layout.firstOnly ==> HeldFirstBy(t, SeedOrder(caps, layout.seedNames), caps[m].node, s.node)))
  {
    var slots := Correlation(t, caps, layout);
    var s := Emitted(t, caps, layout, required)[j];
    assert s in slots;
    var i :| 0 <= i < |slots| && slots[i] == s;
    CorrelationSound(t, caps, layout, i, k);
    assert Nodes(slots)[i] == s.node;
    assert s.node in SeedOrder(caps, layout.seedNames);
    LastSeedNameSeeded(caps, layout.seedNames, s.node);
  }
}
