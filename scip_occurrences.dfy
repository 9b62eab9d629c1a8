/**
 * How the SCIP linker orders the occurrences of one document: it splits them
 * into definitions and references by the Definition role bit, sorts the
 * definitions by start position with Python's stable sort, and attributes a
 * reference to the narrowest function span (from the structural parser) that
 * encloses its line.
 */
module ScipOccurrences {
  import opened Wrappers

  /** A SCIP occurrence as decoded from the index. */
  datatype RawOccurrence = RawOccurrence(symbol: string, range: seq<int>, symbolRoles: int)

  /** SCIP ranges are `[start_line, start_char, end_char]` (one line) or
      `[start_line, start_char, end_line, end_char]`, all zero-based. */
  type Occurrence = o: RawOccurrence | |o.range| == 3 || |o.range| == 4
    witness RawOccurrence("", [0, 0, 0], 0)

  /** The zero-based line an occurrence starts on. */
  function StartLine(o: Occurrence): int {
    o.range[0]
  }

  /** `symbol_roles & SymbolRole.Definition`, the Definition role being bit 0;
      on Python's unbounded two's-complement integers that bit is the
      remainder modulo 2, negative role masks included. */
  predicate IsDefinition(o: Occurrence) {
    o.symbolRoles % 2 == 1
  }

  /** Every occurrence without the Definition bit counts as a reference. */
  predicate IsReference(o: Occurrence) {
    !IsDefinition(o)
  }

  /** The definitions of a document in their original order. */
  function Definitions(occurrences: seq<Occurrence>): (r: seq<Occurrence>)
    ensures |r| <= |occurrences|
  {
    if occurrences == [] then []
    else
      var o := occurrences[|occurrences| - 1];
      Definitions(occurrences[..|occurrences| - 1]) + if IsDefinition(o) then [o] else []
  }

  /** The references of a document in their original order. */
  function References(occurrences: seq<Occurrence>): (r: seq<Occurrence>)
    ensures |r| <= |occurrences|
  {
    if occurrences == [] then []
    else
      var o := occurrences[|occurrences| - 1];
      References(occurrences[..|occurrences| - 1]) + if IsDefinition(o) then [] else [o]
  }

  /** One more occurrence goes to exactly one of the two lists. */
  lemma PartitionSnoc(occurrences: seq<Occurrence>, o: Occurrence)
    ensures Definitions(occurrences + [o]) == Definitions(occurrences) + if IsDefinition(o) then [o] else []
    ensures References(occurrences + [o]) == References(occurrences) + if IsDefinition(o) then [] else [o]
  {
    assert (occurrences + [o])[..|occurrences|] == occurrences;
  }

  /** Every occurrence lands in exactly one of the two lists: the lists
      together hold the occurrences with their multiplicities, each definition
      has the Definition bit and no reference does. */
  lemma {:induction false} PartitionSplits(occurrences: seq<Occurrence>)
    ensures multiset(Definitions(occurrences)) + multiset(References(occurrences)) == multiset(occurrences)
    ensures forall o | o in Definitions(occurrences) :: IsDefinition(o)
    ensures forall o | o in References(occurrences) :: !IsDefinition(o)
  {
    if occurrences != [] {
      var front := occurrences[..|occurrences| - 1];
      var o := occurrences[|occurrences| - 1];
      PartitionSplits(front);
      assert occurrences == front + [o];
      PartitionSnoc(front, o);
    }
  }

  /** Splits the occurrences of a document by the Definition role bit, keeping
      their order in both lists. */
  method Partition(occurrences: seq<Occurrence>) returns (definitions: seq<Occurrence>, references: seq<Occurrence>)
    ensures definitions == Definitions(occurrences)
    ensures references == References(occurrences)
  {
    definitions, references := [], [];
    for i := 0 to |occurrences|
      invariant definitions == Definitions(occurrences[..i])
      invariant references == References(occurrences[..i])
    {
      assert occurrences[..i + 1] == occurrences[..i] + [occurrences[i]];
      PartitionSnoc(occurrences[..i], occurrences[i]);
      if IsDefinition(occurrences[i]) {
        definitions := definitions + [occurrences[i]];
      } else {
        references := references + [occurrences[i]];
      }
    }
    assert occurrences[..|occurrences|] == occurrences;
  }

  /** A sort key: Python compares the key tuples lexicographically; a key of
      one integer is the pair with 0 as its second part. */
  datatype Key = Key(major: int, minor: int)

  /** The lexicographic order on keys. */
  predicate KeyLe(a: Key, b: Key) {
    a.major < b.major || (a.major == b.major && a.minor <= b.minor)
  }

  /** `xs` is in non-decreasing key order. */
  predicate SortedBy<T>(xs: seq<T>, key: T -> Key) {
    forall i, j | 0 <= i < j < |xs| :: KeyLe(key(xs[i]), key(xs[j]))
  }

  /** Places `x` into sorted `s` after every element whose key is not greater
      than its own. */
  function Insert<T>(x: T, s: seq<T>, key: T -> Key): seq<T> {
    if s == [] then [x]
    else if KeyLe(key(s[|s| - 1]), key(x)) then s + [x]
    else Insert(x, s[..|s| - 1], key) + [s[|s| - 1]]
  }

  /** Insertion adds `x` and keeps every element of `s`. */
  lemma {:induction false} InsertPerm<T>(x: T, s: seq<T>, key: T -> Key)
    ensures multiset(Insert(x, s, key)) == multiset(s) + multiset{x}
  {
    if s != [] && !KeyLe(key(s[|s| - 1]), key(x)) {
      InsertPerm(x, s[..|s| - 1], key);
      assert s == s[..|s| - 1] + [s[|s| - 1]];
    }
  }

  /** `list.sort(key=...)`: the stable sort, as insertion of each element in
      turn. */
  function SortBy<T>(xs: seq<T>, key: T -> Key): seq<T> {
    if xs == [] then []
    else Insert(xs[|xs| - 1], SortBy(xs[..|xs| - 1], key), key)
  }

  /** The sort keeps every element with its multiplicity. */
  lemma {:induction false} SortPerm<T>(xs: seq<T>, key: T -> Key)
    ensures multiset(SortBy(xs, key)) == multiset(xs)
  {
    if xs != [] {
      SortPerm(xs[..|xs| - 1], key);
      InsertPerm(xs[|xs| - 1], SortBy(xs[..|xs| - 1], key), key);
      assert xs == xs[..|xs| - 1] + [xs[|xs| - 1]];
    }
  }

  /** Insertion keeps a sorted sequence sorted. */
  lemma {:induction false} InsertSorted<T>(x: T, s: seq<T>, key: T -> Key)
    requires SortedBy(s, key)
    ensures SortedBy(Insert(x, s, key), key)
  {
    if s != [] && !KeyLe(key(s[|s| - 1]), key(x)) {
      var front := s[..|s| - 1];
      InsertSorted(x, front, key);
      var ins := Insert(x, front, key);
      var last := s[|s| - 1];
      InsertPerm(x, front, key);
      forall y | y in multiset(ins) ensures KeyLe(key(y), key(last)) {
        if y != x {
          assert y in multiset(front);
          var i :| 0 <= i < |front| && front[i] == y;
          assert s[i] == y;
        }
      }
      forall i | 0 <= i < |ins| ensures KeyLe(key(ins[i]), key(last)) {
        assert ins[i] in multiset(ins);
      }
    }
  }

  /** The sort orders by key and keeps every element. */
  lemma {:induction false} SortSorted<T>(xs: seq<T>, key: T -> Key)
    ensures SortedBy(SortBy(xs, key), key)
  {
    if xs != [] {
      SortSorted(xs[..|xs| - 1], key);
      InsertSorted(xs[|xs| - 1], SortBy(xs[..|xs| - 1], key), key);
    }
  }

  /** The elements of `xs` whose key is `k`, in order. */
  function SameKey<T>(xs: seq<T>, key: T -> Key, k: Key): (r: seq<T>)
    ensures |r| <= |xs|
  {
    if xs == [] then []
    else SameKey(xs[..|xs| - 1], key, k) + if key(xs[|xs| - 1]) == k then [xs[|xs| - 1]] else []
  }

  /** `SameKey` of a sequence with one more element. */
  lemma SameKeySnoc<T>(xs: seq<T>, y: T, key: T -> Key, k: Key)
    ensures SameKey(xs + [y], key, k) == SameKey(xs, key, k) + if key(y) == k then [y] else []
  {
    assert (xs + [y])[..|xs|] == xs;
  }

  /** `SameKey` distributes over concatenation. */
  lemma {:induction false} SameKeyAppend<T>(a: seq<T>, b: seq<T>, key: T -> Key, k: Key)
    ensures SameKey(a + b, key, k) == SameKey(a, key, k) + SameKey(b, key, k)
  {
    if b == [] {
      assert a + b == a;
    } else {
      var front := b[..|b| - 1];
      var y := b[|b| - 1];
      SameKeyAppend(a, front, key, k);
      assert a + b == (a + front) + [y];
      SameKeySnoc(a + front, y, key, k);
    }
  }

  /** Inserting `x` appends it after the elements with its key and leaves the
      order of every other key's elements alone. */
  lemma {:induction false} InsertStable<T>(x: T, s: seq<T>, key: T -> Key, k: Key)
    requires SortedBy(s, key)
    ensures SameKey(Insert(x, s, key), key, k) == SameKey(s, key, k) + if key(x) == k then [x] else []
  {
    if s == [] {
      SameKeySnoc([], x, key, k);
    } else if KeyLe(key(s[|s| - 1]), key(x)) {
      SameKeySnoc(s, x, key, k);
    } else {
      var front := s[..|s| - 1];
      assert SortedBy(front, key);
      InsertStable(x, front, key, k);
      InsertStableShift(x, s, key, k);
    }
  }

  /** The step of `InsertStable` where `x` goes before the last element of
      `s`, whose key is therefore not the key of `x`. */
  lemma InsertStableShift<T>(x: T, s: seq<T>, key: T -> Key, k: Key)
    requires s != [] && !KeyLe(key(s[|s| - 1]), key(x))
    requires SameKey(Insert(x, s[..|s| - 1], key), key, k) ==
      SameKey(s[..|s| - 1], key, k) + if key(x) == k then [x] else []
    ensures SameKey(Insert(x, s, key), key, k) == SameKey(s, key, k) + if key(x) == k then [x] else []
  {
    var front := s[..|s| - 1];
    var last := s[|s| - 1];
    var ins := Insert(x, front, key);
    assert Insert(x, s, key) == ins + [last];
    SameKeySnoc(ins, last, key, k);
    assert s == front + [last];
    SameKeySnoc(front, last, key, k);
    assert key(last) != key(x);
    if key(x) == k {
      assert SameKey(Insert(x, s, key), key, k) == SameKey(front, key, k) + [x];
    } else if key(last) == k {
      assert SameKey(Insert(x, s, key), key, k) == SameKey(front, key, k) + [last];
    } else {
      assert SameKey(Insert(x, s, key), key, k) == SameKey(front, key, k);
    }
  }

  /** Stability: the sort keeps the relative order of the elements that share
      a key. */
  lemma {:induction false} SortStable<T>(xs: seq<T>, key: T -> Key, k: Key)
    ensures SameKey(SortBy(xs, key), key, k) == SameKey(xs, key, k)
  {
    if xs != [] {
      var front := xs[..|xs| - 1];
      SortStable(front, key, k);
      SortSorted(front, key);
      InsertStable(xs[|xs| - 1], SortBy(front, key), key, k);
    }
  }

  /** The sort key of a definition: its start line, then its start column. */
  function StartKey(o: Occurrence): Key {
    Key(o.range[0], o.range[1])
  }

  /** The definitions in the order in which their nodes are written. */
  function SortedDefinitions(occurrences: seq<Occurrence>): seq<Occurrence> {
    SortBy(Definitions(occurrences), StartKey)
  }

  /** The definitions end up ordered by (start line, start column), every one
      of them kept, and those starting at the same position stay in document
      order; no reference is among them. */
  lemma SortedDefinitionsOrder(occurrences: seq<Occurrence>, k: Key)
    ensures multiset(SortedDefinitions(occurrences)) == multiset(Definitions(occurrences))
    ensures SortedBy(SortedDefinitions(occurrences), StartKey)
    ensures forall o | o in SortedDefinitions(occurrences) :: IsDefinition(o) && o in occurrences
    ensures SameKey(SortedDefinitions(occurrences), StartKey, k) == SameKey(Definitions(occurrences), StartKey, k)
  {
    SortSorted(Definitions(occurrences), StartKey);
    SortStable(Definitions(occurrences), StartKey, k);
    SortPerm(Definitions(occurrences), StartKey);
    PartitionSplits(occurrences);
    forall o | o in SortedDefinitions(occurrences) ensures IsDefinition(o) && o in occurrences {
      assert o in multiset(SortedDefinitions(occurrences));
      assert o in multiset(occurrences);
    }
  }

  /** A function span reported by the structural parser: its name and its
      one-based first and last lines. */
  datatype Span = Span(name: string, lineNumber: int, endLine: int)

  /** `func['line_number'] <= ref_line <= func['end_line']`. */
  predicate Encloses(f: Span, line: int) {
    f.lineNumber <= line <= f.endLine
  }

  /** The sort key of a containing function: how many lines it spans. */
  function WidthKey(f: Span): Key {
    Key(f.endLine - f.lineNumber, 0)
  }

  /** The functions whose span holds `line`, in their original order. */
  function Containing(functions: seq<Span>, line: int): (r: seq<Span>)
    ensures |r| <= |functions|
  {
    if functions == [] then []
    else
      var f := functions[|functions| - 1];
      Containing(functions[..|functions| - 1], line) + if Encloses(f, line) then [f] else []
  }

  /** What `Containing` keeps is exactly the functions enclosing the line. */
  lemma {:induction false} ContainingMembers(functions: seq<Span>, line: int)
    ensures forall f :: f in Containing(functions, line) <==> f in functions && Encloses(f, line)
  {
    if functions != [] {
      ContainingMembers(functions[..|functions| - 1], line);
      assert functions == functions[..|functions| - 1] + [functions[|functions| - 1]];
    }
  }

  /** The caller a reference on `line` is attributed to: the containing
      functions sorted by width with the stable sort, and the first of them;
      None when no function contains the line. */
  function NarrowestCaller(functions: seq<Span>, line: int): Option<Span> {
    var containing := Containing(functions, line);
    if containing == [] then None else Some(SortBy(containing, WidthKey)[0])
  }

  /** The caller is the narrowest function around the reference, the earliest
      in the list among equally narrow ones; there is none exactly when no
      function's span holds the line. */
  lemma NarrowestCallerSpec(functions: seq<Span>, line: int)
    ensures NarrowestCaller(functions, line).None? <==> forall f | f in functions :: !Encloses(f, line)
    ensures NarrowestCaller(functions, line).Some? ==>
      var c := NarrowestCaller(functions, line).value;
      && Encloses(c, line)
      && (forall f | f in functions && Encloses(f, line) :: c.endLine - c.lineNumber <= f.endLine - f.lineNumber)
      && FirstOfWidth(functions, line, c)
  {
    var containing := Containing(functions, line);
    ContainingMembers(functions, line);
    if containing != [] {
      var sorted := SortBy(containing, WidthKey);
      var c := sorted[0];
      SortSorted(containing, WidthKey);
      SortPerm(containing, WidthKey);
      assert c in multiset(containing);
      forall f | f in functions && Encloses(f, line) ensures KeyLe(WidthKey(c), WidthKey(f)) {
        assert f in multiset(sorted);
        var i :| 0 <= i < |sorted| && sorted[i] == f;
        assert i == 0 || KeyLe(WidthKey(sorted[0]), WidthKey(sorted[i]));
      }
      NarrowestFirst(functions, line);
    }
  }

  /** `c` is in `functions`, and every function before it whose span holds
      `line` is strictly wider. */
  predicate FirstOfWidth(functions: seq<Span>, line: int, c: Span) {
    exists i | 0 <= i < |functions| :: functions[i] == c && EarlierWider(functions, line, i, c)
  }

  /** Every function before position `i` whose span holds `line` is wider
      than `c`. */
  predicate EarlierWider(functions: seq<Span>, line: int, i: int, c: Span)
    requires 0 <= i <= |functions|
  {
    forall j | 0 <= j < i && Encloses(functions[j], line) :: WidthKey(functions[j]) != WidthKey(c)
  }

  /** The first containing function of a given width is the first function
      in the list that contains the line and has that width. */
  lemma {:induction false} FirstOfKey(functions: seq<Span>, line: int, k: Key)
    requires SameKey(Containing(functions, line), WidthKey, k) != []
    ensures var c := SameKey(Containing(functions, line), WidthKey, k)[0];
      exists i | 0 <= i < |functions| :: functions[i] == c && EarlierWider(functions, line, i, c)
  {
    var front := functions[..|functions| - 1];
    var f := functions[|functions| - 1];
    var sk := SameKey(Containing(front, line), WidthKey, k);
    ContainingKeySnoc(functions, line, k);
    var c := SameKey(Containing(functions, line), WidthKey, k)[0];
    if sk != [] {
      assert c == sk[0];
      FirstOfKey(front, line, k);
      var i :| 0 <= i < |front| && front[i] == c && EarlierWider(front, line, i, c);
      assert functions[i] == c;
      assert EarlierWider(functions, line, i, c);
    } else {
      NoEarlierOfKey(functions, line, k);
    }
  }

  /** The containing functions of key `k` among `functions`, from those of
      all but the last function. */
  lemma ContainingKeySnoc(functions: seq<Span>, line: int, k: Key)
    requires functions != []
    ensures var f := functions[|functions| - 1];
      SameKey(Containing(functions, line), WidthKey, k) ==
        SameKey(Containing(functions[..|functions| - 1], line), WidthKey, k) +
          if Encloses(f, line) && WidthKey(f) == k then [f] else []
  {
    var front := functions[..|functions| - 1];
    var f := functions[|functions| - 1];
    if Encloses(f, line) {
      assert Containing(functions, line) == Containing(front, line) + [f];
      SameKeySnoc(Containing(front, line), f, WidthKey, k);
    } else {
      assert Containing(functions, line) == Containing(front, line);
    }
  }

  /** When no earlier function contains the line with key `k`, the last one
      is the first such. */
  lemma NoEarlierOfKey(functions: seq<Span>, line: int, k: Key)
    requires functions != []
    requires SameKey(Containing(functions[..|functions| - 1], line), WidthKey, k) == []
    requires Encloses(functions[|functions| - 1], line) && WidthKey(functions[|functions| - 1]) == k
    ensures EarlierWider(functions, line, |functions| - 1, functions[|functions| - 1])
  {
    var front := functions[..|functions| - 1];
    SameKeyMembers(Containing(front, line), WidthKey, k);
    ContainingMembers(front, line);
    forall j | 0 <= j < |front| && Encloses(functions[j], line) ensures WidthKey(functions[j]) != k {
      assert functions[j] == front[j] && front[j] in front;
    }
  }

  /** What `SameKey` keeps is exactly the elements with that key. */
  lemma {:induction false} SameKeyMembers<T>(xs: seq<T>, key: T -> Key, k: Key)
    ensures forall y :: y in SameKey(xs, key, k) <==> y in xs && key(y) == k
  {
    if xs != [] {
      SameKeyMembers(xs[..|xs| - 1], key, k);
      assert xs == xs[..|xs| - 1] + [xs[|xs| - 1]];
    }
  }

  /** The head of the sorted containing functions is the first function in
      the list that contains the line and is as narrow as it. */
  lemma NarrowestFirst(functions: seq<Span>, line: int)
    requires Containing(functions, line) != []
    ensures FirstOfWidth(functions, line, SortBy(Containing(functions, line), WidthKey)[0])
  {
    var containing := Containing(functions, line);
    var sorted := SortBy(containing, WidthKey);
    var c := sorted[0];
    SortStable(containing, WidthKey, WidthKey(c));
    assert sorted == [c] + sorted[1..];
    SameKeyAppend([c], sorted[1..], WidthKey, WidthKey(c));
    SameKeySnoc([], c, WidthKey, WidthKey(c));
    assert SameKey(containing, WidthKey, WidthKey(c))[0] == c;
    FirstOfKey(functions, line, WidthKey(c));
  }
}
