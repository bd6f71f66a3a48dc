/** The init protocol of the marshal process: which drivers it starts, where it puts their stacks, its own heap and
    its own deep stack. */
module Marshal {
  import opened Collections
  import opened Frames
  import opened Memory
  import opened Kernel
  import opened Tar
  import opened Unicode
  import Elf
  import Graphics
  import KernelLoader
  import UserLoader
  import opened Words

  const HEAP_START: nat := 0x4000_0000_0000
  const HEAP_PAGES: nat := 4096
  const STACK_BASE: nat := 0x6000_0000_0000
  const STACK_STEP: nat := 0x10_0000
  const STACK_PAGES: nat := 16
  const SHARED_PAGE: nat := 0x4000_0000
  const DEEP_BASE: nat := 0x6000_00F0_0000
  const DEEP_PAGES: nat := 4096

  const INIT_RC: Text := [0x69, 0x6E, 0x69, 0x74, 0x2E, 0x72, 0x63]
  const DRIVER: Text := [0x64, 0x72, 0x69, 0x76, 0x65, 0x72, 0x3A]
  const APP: Text := [0x61, 0x70, 0x70, 0x3A]

  type Text = seq<Byte>

  datatype Spawn = Spawn(entry: nat, stack: nat)

  /** Cuts a text into lines and trims them. */
  type Splitter = Text -> seq<Text>

  /** What the ELF loader returns on its k-th call. */
  type Loads = nat -> Option<nat>

  // ---- Which objects the configuration names ----

  function Matching(objects: seq<Object>, name: Text): seq<Object> {
    if objects == [] then [] else
      var before, o := Matching(objects[..|objects| - 1], name), objects[|objects| - 1];
      if o.name == name then before + [o] else before
  }

  function LineDrivers(objects: seq<Object>, line: Text): seq<Object> {
    if DRIVER <= line then Matching(objects, line[7..]) else []
  }

  function LineApps(objects: seq<Object>, line: Text): seq<Object> {
    if !(DRIVER <= line) && APP <= line then Matching(objects, line[4..]) else []
  }

  function Drivers(objects: seq<Object>, lines: seq<Text>): seq<Object> {
    if lines == [] then [] else
      Drivers(objects, lines[..|lines| - 1]) + LineDrivers(objects, lines[|lines| - 1])
  }

  function Apps(objects: seq<Object>, lines: seq<Text>): seq<Object> {
    if lines == [] then [] else
      Apps(objects, lines[..|lines| - 1]) + LineApps(objects, lines[|lines| - 1])
  }

  function Data(archive: seq<Byte>, o: Object): Text {
    if o.from <= o.to <= |archive| then archive[o.from..o.to] else []
  }

  /** The lines of every `init.rc` that is valid text, in archive order. */
  function Lines(archive: seq<Byte>, objects: seq<Object>, split: Splitter): seq<Text> {
    if objects == [] then [] else
      var before, o := Lines(archive, objects[..|objects| - 1], split), objects[|objects| - 1];
      if o.name == INIT_RC && Utf8(Data(archive, o)) then before + split(Data(archive, o)) else before
  }

  lemma Peel(a: seq<Text>, b: seq<Text>)
    requires b != []
    ensures a + b == a + b[..|b| - 1] + [b[|b| - 1]] && b == b[..|b| - 1] + [b[|b| - 1]]
  {
  }

  lemma Associate(a: seq<Object>, b: seq<Object>, c: seq<Object>)
    ensures a + b + c == a + (b + c)
  {
  }

  lemma DriversLast(objects: seq<Object>, front: seq<Text>, last: Text)
    ensures Drivers(objects, front + [last]) == Drivers(objects, front) + LineDrivers(objects, last)
  {
    hide LineDrivers;
    assert (front + [last])[..|front|] == front;
  }

  lemma {:induction false} DriversAppend(objects: seq<Object>, a: seq<Text>, b: seq<Text>)
    ensures Drivers(objects, a + b) == Drivers(objects, a) + Drivers(objects, b)
  {
    if b == [] {
      assert a + b == a;
    } else {
      hide *;
      var front, last := b[..|b| - 1], b[|b| - 1];
      Peel(a, b);
      DriversAppend(objects, a, front);
      DriversLast(objects, a + front, last);
      DriversLast(objects, front, last);
      Associate(Drivers(objects, a), Drivers(objects, front), LineDrivers(objects, last));
    }
  }

  lemma AppsLast(objects: seq<Object>, front: seq<Text>, last: Text)
    ensures Apps(objects, front + [last]) == Apps(objects, front) + LineApps(objects, last)
  {
    hide LineApps;
    assert (front + [last])[..|front|] == front;
  }

  lemma {:induction false} AppsAppend(objects: seq<Object>, a: seq<Text>, b: seq<Text>)
    ensures Apps(objects, a + b) == Apps(objects, a) + Apps(objects, b)
  {
    if b == [] {
      assert a + b == a;
    } else {
      hide *;
      var front, last := b[..|b| - 1], b[|b| - 1];
      Peel(a, b);
      AppsAppend(objects, a, front);
      AppsLast(objects, a + front, last);
      AppsLast(objects, front, last);
      Associate(Apps(objects, a), Apps(objects, front), LineApps(objects, last));
    }
  }

  /** The configuration keywords and the name of the configuration file. */
  lemma Spelling()
    ensures DRIVER == Ascii("driver:") && APP == Ascii("app:") && INIT_RC == Ascii("init.rc")
  {
  }

  lemma {:induction false} MatchingMembers(objects: seq<Object>, name: Text)
    ensures forall o :: o in Matching(objects, name) <==> o in objects && o.name == name
  {
    if objects != [] {
      MatchingMembers(objects[..|objects| - 1], name);
      assert objects == objects[..|objects| - 1] + [objects[|objects| - 1]];
    }
  }

  lemma {:induction false} LastMatching(objects: seq<Object>, name: Text, i: nat)
    requires i < |objects| && objects[i].name == name && forall j :: i < j < |objects| ==> objects[j].name != name
    ensures var m := Matching(objects, name); m != [] && m[|m| - 1] == objects[i]
  {
    if i < |objects| - 1 { LastMatching(objects[..|objects| - 1], name, i); }
  }

  /** The line names object `o` after the keyword. */
  predicate Names(line: Text, keyword: string, o: Object) {
    line == Ascii(keyword) + o.name
  }

  lemma LineAppsIff(objects: seq<Object>, line: Text)
    ensures forall o :: o in LineApps(objects, line) <==> o in objects && Names(line, "app:", o)
  {
    hide Ascii;
    Spelling();
    forall o ensures o in LineApps(objects, line) <==> o in objects && Names(line, "app:", o) {
      if APP <= line {
        assert line == APP + line[4..] && line[0] == APP[0] != DRIVER[0];
        MatchingMembers(objects, line[4..]);
      }
    }
  }

  lemma LineDriversIff(objects: seq<Object>, line: Text)
    ensures forall o :: o in LineDrivers(objects, line) <==> o in objects && Names(line, "driver:", o)
  {
    hide Ascii;
    Spelling();
    forall o ensures o in LineDrivers(objects, line) <==> o in objects && Names(line, "driver:", o) {
      if DRIVER <= line {
        assert line == DRIVER + line[7..];
        MatchingMembers(objects, line[7..]);
      }
    }
  }

  /** Exactly the objects that some `driver:` line names are started. */
  lemma {:induction false} DriversIff(objects: seq<Object>, lines: seq<Text>, o: Object)
    ensures o in Drivers(objects, lines) <==> o in objects && exists k :: 0 <= k < |lines| && Names(lines[k], "driver:", o)
  {
    if lines != [] {
      var front := lines[..|lines| - 1];
      DriversIff(objects, front, o);
      LineDriversIff(objects, lines[|lines| - 1]);
      hide Names, LineDrivers;
      assert forall k :: 0 <= k < |front| ==> front[k] == lines[k];
    }
  }

  /** The application is the last object that the last `app:` line with an object names; without such a line there is
      none. */
  lemma {:induction false} AppIsLastNamed(objects: seq<Object>, lines: seq<Text>, k: nat, i: nat)
    requires k < |lines| && i < |objects| && Names(lines[k], "app:", objects[i])
    requires forall m, o :: k < m < |lines| && o in objects ==> !Names(lines[m], "app:", o)
    requires forall j :: i < j < |objects| ==> objects[j].name != objects[i].name
    ensures LastOf(None, Apps(objects, lines)) == Some(objects[i])
  {
    var front, last := lines[..|lines| - 1], lines[|lines| - 1];
    if k == |lines| - 1 {
      hide Ascii;
      Spelling();
      assert last[4..] == objects[i].name && APP <= last && last[0] == APP[0] != DRIVER[0];
      LastMatching(objects, objects[i].name, i);
    } else {
      hide Names, LineApps;
      LineAppsIff(objects, last);
      FirstIsMember(LineApps(objects, last));
      assert forall m :: 0 <= m < |front| ==> front[m] == lines[m];
      AppIsLastNamed(objects, front, k, i);
    }
  }

  lemma FirstIsMember(s: seq<Object>)
    ensures s == [] || s[0] in s
  {
  }

  lemma {:induction false} NoAppNamed(objects: seq<Object>, lines: seq<Text>)
    requires forall m, o :: 0 <= m < |lines| && o in objects ==> !Names(lines[m], "app:", o)
    ensures LastOf(None, Apps(objects, lines)) == None
  {
    if lines != [] {
      hide Names, LineApps;
      var front, last := lines[..|lines| - 1], lines[|lines| - 1];
      LineAppsIff(objects, last);
      FirstIsMember(LineApps(objects, last));
      assert forall m :: 0 <= m < |front| ==> front[m] == lines[m];
      NoAppNamed(objects, front);
    }
  }

  // ---- Stacks ----

  /** The processes spawned by the first `n` loads: the k-th gets the top of the k-th stack. */
  function Spawns(load: Loads, n: nat): seq<Spawn> {
    if n == 0 then [] else
      var before := Spawns(load, n - 1);
      if load(n - 1).Some? then before + [Spawn(load(n - 1).value, StackOf(|before|) + STACK_PAGES * PAGE_SIZE)]
      else before
  }

  function StackOf(k: nat): nat { STACK_BASE + k * STACK_STEP }

  /** The addresses `base`, `base + 4096`, ... */
  function Pages(base: nat, n: nat): seq<nat> {
    seq(n, i requires 0 <= i => base + i * PAGE_SIZE)
  }

  function StackPages(n: nat): seq<nat> {
    if n == 0 then [] else StackPages(n - 1) + Pages(StackOf(n - 1), STACK_PAGES)
  }

  /** Every page of the layout that is requested when `n` drivers were loaded, in order: heap, driver stacks, shared page and
      deep stack. The pages that the ELF loads themselves ask for are not among them. */
  function Requests(n: nat): seq<nat> {
    Pages(HEAP_START, HEAP_PAGES) + StackPages(n) + [SHARED_PAGE] + Pages(DEEP_BASE, DEEP_PAGES)
  }

  /** Starting one driver at the current stack base. */
  method StartDriver(base: nat, entry: nat) returns (granted: seq<nat>, spawn: Spawn)
    ensures granted == Pages(base, STACK_PAGES) && spawn == Spawn(entry, base + STACK_PAGES * PAGE_SIZE)
  {
    granted := GrantRun(base, STACK_PAGES);
    spawn := Spawn(entry, base + 16 * 4096);
  }

  method GrantRun(base: nat, n: nat) returns (granted: seq<nat>)
    ensures granted == Pages(base, n)
  {
    granted := [];
    for p := 0 to n
      invariant granted == Pages(base, p)
    {
      granted := granted + [base + p * 4096];
    }
  }

  /** What the loads from number `from` to number `calls` have requested and spawned, and the next stack base. */
  ghost predicate Advanced(load: Loads, from: nat, calls: nat, stack: nat, granted: seq<nat>, spawned: seq<Spawn>) {
    && stack == StackOf(|Spawns(load, calls)|)
    && Spawns(load, calls) == Spawns(load, from) + spawned
    && StackPages(|Spawns(load, calls)|) == StackPages(|Spawns(load, from)|) + granted
  }

  lemma AdvancedAppend(load: Loads, from: nat, mid: nat, calls: nat, midStack: nat, stack: nat,
                       g: seq<nat>, h: seq<nat>, s: seq<Spawn>, t: seq<Spawn>)
    requires Advanced(load, from, mid, midStack, g, s) && Advanced(load, mid, calls, stack, h, t)
    ensures Advanced(load, from, calls, stack, g + h, s + t)
  {
    hide Spawns, StackPages, StackOf;
  }

  /** The driver branch of a configuration line: `stack` is the base of the next stack, `calls` the number of loads. */
  method StartDrivers(objects: seq<Object>, name: Text, load: Loads, calls0: nat, stack0: nat)
    returns (calls: nat, stack: nat, granted: seq<nat>, spawned: seq<Spawn>)
    requires stack0 == StackOf(|Spawns(load, calls0)|)
    ensures calls == calls0 + |Matching(objects, name)|
    ensures Advanced(load, calls0, calls, stack, granted, spawned)
  {
    hide Spawns, StackPages, Pages;
    calls, stack, granted, spawned := calls0, stack0, [], [];
    for i := 0 to |objects|
      invariant calls == calls0 + |Matching(objects[..i], name)|
      invariant Advanced(load, calls0, calls, stack, granted, spawned)
    {
      assert objects[..i + 1][..i] == objects[..i];
      if objects[i].name == name {
        NextSpawn(load, calls);
        if load(calls).Some? {
          var g, s := StartDriver(stack, load(calls).value);
          granted, spawned, stack := granted + g, spawned + [s], stack + 0x10_0000;
        }
        calls := calls + 1;
      }
    }
    assert objects[..|objects|] == objects;
  }

  lemma NextSpawn(load: Loads, n: nat)
    ensures var k := |Spawns(load, n)|;
            if load(n).Some? then
              && Spawns(load, n + 1) == Spawns(load, n) + [Spawn(load(n).value, StackOf(k) + STACK_PAGES * PAGE_SIZE)]
              && StackPages(|Spawns(load, n + 1)|) == StackPages(k) + Pages(StackOf(k), STACK_PAGES)
            else Spawns(load, n + 1) == Spawns(load, n)
  {
    hide Pages;
  }

  /** The application branch: the last match wins. */
  method ChooseApp(objects: seq<Object>, name: Text, app0: Option<Object>) returns (app: Option<Object>)
    ensures app == LastOf(app0, Matching(objects, name))
  {
    app := app0;
    for i := 0 to |objects|
      invariant app == LastOf(app0, Matching(objects[..i], name))
    {
      assert objects[..i + 1][..i] == objects[..i];
      if objects[i].name == name {
        app := Some(objects[i]);
      }
    }
    assert objects[..|objects|] == objects;
  }

  /** One configuration line. */
  method RunLine(objects: seq<Object>, line: Text, load: Loads, calls0: nat, stack0: nat, app0: Option<Object>)
    returns (calls: nat, stack: nat, granted: seq<nat>, spawned: seq<Spawn>, app: Option<Object>)
    requires stack0 == StackOf(|Spawns(load, calls0)|)
    ensures calls == calls0 + |LineDrivers(objects, line)|
    ensures Advanced(load, calls0, calls, stack, granted, spawned)
    ensures app == LastOf(app0, LineApps(objects, line))
  {
    hide Spawns, StackPages, Matching;
    calls, stack, granted, spawned, app := calls0, stack0, [], [], app0;
    if DRIVER <= line {
      calls, stack, granted, spawned := StartDrivers(objects, line[7..], load, calls, stack);
    } else if APP <= line {
      app := ChooseApp(objects, line[4..], app);
    }
  }

  /** The last object, or the value before if there is none. */
  function LastOf(before: Option<Object>, os: seq<Object>): Option<Object> {
    if os == [] then before else Some(os[|os| - 1])
  }

  lemma LastOfAppend(before: Option<Object>, a: seq<Object>, b: seq<Object>)
    ensures LastOf(before, a + b) == LastOf(LastOf(before, a), b)
  {
  }

  lemma AdvancedNone(load: Loads, calls: nat)
    ensures Advanced(load, calls, calls, StackOf(|Spawns(load, calls)|), [], [])
  {
    hide Spawns, StackPages;
  }

  lemma AdvancedStack(load: Loads, from: nat, calls: nat, stack: nat, g: seq<nat>, s: seq<Spawn>)
    requires Advanced(load, from, calls, stack, g, s)
    ensures stack == StackOf(|Spawns(load, calls)|)
  {
  }

  /** All lines of one configuration file. */
  method RunLines(objects: seq<Object>, lines: seq<Text>, load: Loads, calls0: nat, stack0: nat, app0: Option<Object>)
    returns (calls: nat, stack: nat, granted: seq<nat>, spawned: seq<Spawn>, app: Option<Object>)
    requires stack0 == StackOf(|Spawns(load, calls0)|)
    ensures calls == calls0 + |Drivers(objects, lines)|
    ensures Advanced(load, calls0, calls, stack, granted, spawned)
    ensures app == LastOf(app0, Apps(objects, lines))
  {
    hide StackPages, Spawns, LineDrivers, LineApps, Advanced;
    calls, stack, granted, spawned, app := calls0, stack0, [], [], app0;
    AdvancedNone(load, calls0);
    for i := 0 to |lines|
      invariant calls == calls0 + |Drivers(objects, lines[..i])|
      invariant Advanced(load, calls0, calls, stack, granted, spawned)
      invariant app == LastOf(app0, Apps(objects, lines[..i]))
    {
      hide Drivers, Apps, LastOf;
      assert lines[..i + 1] == lines[..i] + [lines[i]];
      DriversLast(objects, lines[..i], lines[i]);
      AppsLast(objects, lines[..i], lines[i]);
      LastOfAppend(app0, Apps(objects, lines[..i]), LineApps(objects, lines[i]));
      AdvancedStack(load, calls0, calls, stack, granted, spawned);
      ghost var mid, midStack := calls, stack;
      var g, s;
      calls, stack, g, s, app := RunLine(objects, lines[i], load, calls, stack, app);
      AdvancedAppend(load, calls0, mid, calls, midStack, stack, granted, g, spawned, s);
      granted, spawned := granted + g, spawned + s;
    }
    AdvancedStack(load, calls0, calls, stack, granted, spawned);
    assert lines[..|lines|] == lines;
  }

  /** The start of marshal up to the switch to its deep stack: all pages it requests, all processes it spawns, and the
      application it will run. */
  method Start(archive: seq<Byte>, split: Splitter, load: Loads)
    returns (granted: seq<nat>, spawned: seq<Spawn>, app: Option<Object>)
    ensures var objects := Members(archive, 0);
            var lines := Lines(archive, objects, split);
            && spawned == Spawns(load, |Drivers(objects, lines)|)
            && app == LastOf(None, Apps(objects, lines))
    ensures granted == Requests(|spawned|)
  {
    hide StackPages, Spawns, Pages, Drivers, Apps, Members, Utf8;
    var heap := GrantRun(HEAP_START, 16 * 1024 * 1024 / 4096);
    var objects := Parse(archive);
    NothingYet(objects, load);
    var calls, stack := 0, 0x6000_0000_0000;
    var stacks: seq<nat> := [];
    spawned, app := [], None;
    for i := 0 to |objects|
      invariant calls == |Drivers(objects, Lines(archive, objects[..i], split))|
      invariant stack == StackOf(|Spawns(load, calls)|)
      invariant spawned == Spawns(load, calls) && stacks == StackPages(|Spawns(load, calls)|)
      invariant app == LastOf(None, Apps(objects, Lines(archive, objects[..i], split)))
    {
      assert objects[..i + 1][..i] == objects[..i];
      if objects[i].name == INIT_RC {
        var text := Data(archive, objects[i]);
        if Utf8(text) {
          DriversAppend(objects, Lines(archive, objects[..i], split), split(text));
          AppsAppend(objects, Lines(archive, objects[..i], split), split(text));
          var g, s;
          calls, stack, g, s, app := RunLines(objects, split(text), load, calls, stack, app);
          stacks, spawned := stacks + g, spawned + s;
        }
      }
    }
    assert objects[..|objects|] == objects;
    var deep := GrantRun(DEEP_BASE, 16 * 1024 * 1024 / 4096);
    granted := heap + stacks + [0x4000_0000] + deep;
  }

  lemma NothingYet(objects: seq<Object>, load: Loads)
    ensures Drivers(objects, []) == [] && Apps(objects, []) == [] && Spawns(load, 0) == [] && StackPages(0) == []
  {
  }

  // ---- Collisions ----

  ghost predicate Within(s: seq<nat>, low: nat, high: nat) {
    forall i :: 0 <= i < |s| ==> low <= s[i] < high
  }

  /** Two lists on different sides of a boundary. */
  lemma DistinctAppend(a: seq<nat>, b: seq<nat>, low: nat, mid: nat, high: nat)
    requires Distinct(a) && Distinct(b) && low <= mid <= high
    requires (Within(a, low, mid) && Within(b, mid, high)) || (Within(b, low, mid) && Within(a, mid, high))
    ensures Distinct(a + b) && Within(a + b, low, high)
  {
  }

  lemma PagesFacts(base: nat, n: nat)
    ensures Distinct(Pages(base, n)) && Within(Pages(base, n), base, base + n * PAGE_SIZE)
  {
  }

  lemma {:induction false} StacksApart(n: nat)
    ensures Distinct(StackPages(n)) && Within(StackPages(n), STACK_BASE, StackOf(n))
  {
    if n != 0 {
      hide Pages, Distinct, Within;
      StacksApart(n - 1);
      PagesFacts(StackOf(n - 1), STACK_PAGES);
      Widen(Pages(StackOf(n - 1), STACK_PAGES), StackOf(n - 1), StackOf(n - 1) + STACK_PAGES * PAGE_SIZE, StackOf(n));
      DistinctAppend(StackPages(n - 1), Pages(StackOf(n - 1), STACK_PAGES), STACK_BASE, StackOf(n - 1), StackOf(n));
    }
  }

  lemma Widen(s: seq<nat>, low: nat, high: nat, higher: nat)
    requires Within(s, low, high) && high <= higher
    ensures Within(s, low, higher)
  {
  }

  /** The k-th stack is among the pages requested. */
  lemma {:induction false} StackIsRequested(n: nat, k: nat, p: nat)
    requires k < n && p < STACK_PAGES
    ensures StackOf(k) + p * PAGE_SIZE in StackPages(n)
  {
    if k == n - 1 {
      assert Pages(StackOf(k), STACK_PAGES)[p] == StackOf(k) + p * PAGE_SIZE;
    } else {
      StackIsRequested(n - 1, k, p);
    }
  }

  /** No page of the layout is requested twice if and only if at most 15 drivers were loaded: the 16th stack is the first
      pages of the deep stack. */
  lemma NoCollisionIff(n: nat)
    ensures Distinct(Requests(n)) <==> n <= 15
  {
    var heap, stacks, deep := Pages(HEAP_START, HEAP_PAGES), StackPages(n), Pages(DEEP_BASE, DEEP_PAGES);
    if n <= 15 {
      DistinctRequests(n);
    } else {
      StackIsRequested(n, 15, 0);
      assert DEEP_BASE in stacks;
      var i :| 0 <= i < |stacks| && stacks[i] == DEEP_BASE;
      var j := |heap| + |stacks| + 1;
      assert Requests(n)[|heap| + i] == stacks[i];
      assert Requests(n)[j] == deep[0] == DEEP_BASE;
    }
  }

  lemma DistinctRequests(n: nat)
    requires n <= 15
    ensures Distinct(Requests(n))
  {
    var heap, stacks, deep := Pages(HEAP_START, HEAP_PAGES), StackPages(n), Pages(DEEP_BASE, DEEP_PAGES);
    PagesFacts(HEAP_START, HEAP_PAGES);
    PagesFacts(DEEP_BASE, DEEP_PAGES);
    StacksApart(n);
    hide Distinct, Within, Pages, StackPages;
    Widen(heap, HEAP_START, HEAP_START + HEAP_PAGES * PAGE_SIZE, STACK_BASE);
    Widen(stacks, STACK_BASE, StackOf(n), DEEP_BASE);
    DistinctAppend(heap, stacks, HEAP_START, STACK_BASE, DEEP_BASE);
    SharedPage();
    DistinctAppend(heap + stacks, [SHARED_PAGE], 0, HEAP_START, DEEP_BASE);
    DistinctAppend(heap + stacks + [SHARED_PAGE], deep, 0, DEEP_BASE, DEEP_BASE + DEEP_PAGES * PAGE_SIZE);
  }

  lemma SharedPage()
    ensures Distinct([SHARED_PAGE]) && Within([SHARED_PAGE], 0, HEAP_START)
  {
  }

  /** The kernel accepts every request exactly as long as the stacks stay below the user limit. */
  lemma AllAcceptedIff(n: nat)
    ensures (forall i :: 0 <= i < |Requests(n)| ==> IsSafeUserPtr(Requests(n)[i], PAGE_SIZE)) <==> n <= 0x200_0000
  {
    var heap, stacks, deep := Pages(HEAP_START, HEAP_PAGES), StackPages(n), Pages(DEEP_BASE, DEEP_PAGES);
    if n <= 0x200_0000 {
      StacksBelow(n);
      assert forall i :: 0 <= i < |heap| ==> IsSafeUserPtr(heap[i], PAGE_SIZE);
      assert forall i :: 0 <= i < |deep| ==> IsSafeUserPtr(deep[i], PAGE_SIZE);
    } else {
      StackIsRequested(n, n - 1, 0);
      var v := StackOf(n - 1) + 0 * PAGE_SIZE;
      assert v in stacks && !IsSafeUserPtr(v, PAGE_SIZE);
      var i :| 0 <= i < |stacks| && stacks[i] == v;
      assert Requests(n)[|heap| + i] == v;
    }
  }

  lemma {:induction false} StacksBelow(n: nat)
    requires n <= 0x200_0000
    ensures forall i :: 0 <= i < |StackPages(n)| ==> IsSafeUserPtr(StackPages(n)[i], PAGE_SIZE)
  {
    if n != 0 {
      StacksBelow(n - 1);
      var last := Pages(StackOf(n - 1), STACK_PAGES);
      assert forall i :: 0 <= i < |last| ==> IsSafeUserPtr(last[i], PAGE_SIZE);
    }
  }

  /** Every spawned process starts at the top of its own stack, and no two share one. */
  lemma {:induction false} SpawnFacts(load: Loads, n: nat)
    ensures forall k :: 0 <= k < |Spawns(load, n)| ==>
      Spawns(load, n)[k].stack == StackOf(k) + STACK_PAGES * PAGE_SIZE
  {
    if n != 0 {
      SpawnFacts(load, n - 1);
    }
  }

  /** A load that succeeds after `k` others gives the process number `k`, at its entry point and with its stack top
      64 KiB above 0x6000_0000_0000 + k * 1 MiB. */
  lemma {:induction false} SpawnedBy(load: Loads, n: nat, m: nat)
    requires m < n && load(m).Some?
    ensures var k := |Spawns(load, m)|;
            k < |Spawns(load, n)| && Spawns(load, n)[k] == Spawn(load(m).value, 0x6000_0000_0000 + k * 0x10_0000 + 0x1_0000)
  {
    if m < n - 1 {
      SpawnedBy(load, n - 1, m);
    }
  }

  lemma {:induction false} StackPageAt(n: nat, k: nat, j: nat)
    requires k < n && j < 16
    ensures |StackPages(n)| == 16 * n && StackPages(n)[16 * k + j] == 0x6000_0000_0000 + k * 0x10_0000 + j * 4096
  {
    if k < n - 1 {
      StackPageAt(n - 1, k, j);
    } else {
      StackPagesSize(n - 1);
    }
  }

  lemma {:induction false} StackPagesSize(n: nat)
    ensures |StackPages(n)| == 16 * n
  {
    if n != 0 { StackPagesSize(n - 1); }
  }

  /** The layout in numbers: 16 MiB of heap, 16 pages for each driver, the shared page, and 16 MiB of deep stack. */
  lemma LayoutIs(n: nat, i: nat, k: nat, j: nat)
    requires i < 4096 && k < n && j < 16
    ensures |Requests(n)| == 8193 + 16 * n && Requests(n)[i] == 0x4000_0000_0000 + i * 4096
    ensures Requests(n)[4096 + 16 * k + j] == 0x6000_0000_0000 + k * 0x10_0000 + j * 4096
    ensures Requests(n)[4096 + 16 * n] == 0x4000_0000 && Requests(n)[4097 + 16 * n + i] == 0x6000_00F0_0000 + i * 4096
  {
    hide StackPages;
    StackPageAt(n, k, j);
  }

  /** The pages of the spawned stack were requested before the spawn: all 16 below its top. */
  lemma StackOfSpawn(load: Loads, n: nat, k: nat, p: nat)
    requires k < |Spawns(load, n)| && p < STACK_PAGES
    ensures Spawns(load, n)[k].stack - (p + 1) * PAGE_SIZE in Requests(|Spawns(load, n)|)
  {
    hide Spawns, StackPages, Pages;
    SpawnFacts(load, n);
    StackIsRequested(|Spawns(load, n)|, k, STACK_PAGES - 1 - p);
  }

  /** Only pages of the list became mapped. */
  ghost predicate MapsAmong(s: Space, t: Space, pages: seq<nat>) {
    forall p: nat :: p in t.table ==> p in s.table || exists i :: 0 <= i < |pages| && p == Page(pages[i])
  }

  /** Granting a list of pages: what was mapped stays, and every acceptable page ends up mapped. */
  method GrantAll(k: Kernel, pages: seq<nat>) returns (r: SysResult)
    requires k.Valid()
    modifies k`table, k`ram, k`roles, k`mapErrors, k.allocator
    ensures k.Valid() && Preserves(old(k.S()), k.S()) && k.mapErrors >= old(k.mapErrors)
    ensures r.Halt? ==> k.allocator.handed == |k.S().all|
    ensures r.Value? && k.mapErrors == old(k.mapErrors) ==>
      forall i :: 0 <= i < |pages| && IsSafeUserPtr(pages[i], PAGE_SIZE) ==> Page(pages[i]) in k.table
    ensures forall p :: p in k.table ==> p in old(k.table) || k.S().Backed(p)
    ensures MapsAmong(old(k.S()), k.S(), pages)
  {
    hide OneRole, AllFrames, NoOverflow, CursorAt, Preserves, IsSafeUserPtr;
    ghost var s := k.S();
    PreservesReflexive(s, k.allocator.handed, k.roles);
    r := Value(0);
    for i := 0 to |pages|
      invariant k.Valid() && Preserves(s, k.S()) && k.mapErrors >= old(k.mapErrors) && r.Value?
      invariant k.mapErrors == old(k.mapErrors) ==>
        forall j :: 0 <= j < i && IsSafeUserPtr(pages[j], PAGE_SIZE) ==> Page(pages[j]) in k.table
      invariant forall p :: p in k.table ==> p in s.table || k.S().Backed(p)
      invariant MapsAmong(s, k.S(), pages)
    {
      ghost var t := k.S();
      r := k.SysGrant(0, pages[i]);
      PreservesTransitive(s, t, k.S());
      PreservesPages(t, k.S());
      if r.Halt? {
        return;
      }
    }
  }

  ghost predicate Aligned(s: seq<nat>) {
    forall i :: 0 <= i < |s| ==> s[i] % PAGE_SIZE == 0
  }

  lemma PagesAligned(base: nat, n: nat)
    requires base % PAGE_SIZE == 0
    ensures Aligned(Pages(base, n))
  {
  }

  lemma {:induction false} StackPagesAligned(n: nat)
    ensures Aligned(StackPages(n))
  {
    if n != 0 {
      StackPagesAligned(n - 1);
      PagesAligned(StackOf(n - 1), STACK_PAGES);
    }
  }

  lemma RequestsAligned(n: nat)
    ensures Aligned(Requests(n))
  {
    hide Pages, StackPages;
    StackPagesAligned(n);
    PagesAligned(HEAP_START, HEAP_PAGES);
    PagesAligned(DEEP_BASE, DEEP_PAGES);
  }

  /** Every page has a frame of memory, and no two of the list share one. */
  ghost predicate OwnFrames(s: Space, pages: seq<nat>) {
    && (forall i :: 0 <= i < |pages| ==> s.Backed(Page(pages[i])))
    && (forall i, j :: 0 <= i < j < |pages| ==> s.table[Page(pages[i])] != s.table[Page(pages[j])])
  }

  /** Then addresses in two of the pages never reach the same byte. */
  lemma OwnMemory(s: Space, pages: seq<nat>, i: nat, j: nat, u: nat, v: nat)
    requires s.Sound() && OwnFrames(s, pages) && i < j < |pages|
    requires Page(u) == Page(pages[i]) && Page(v) == Page(pages[j])
    ensures s.Backed(Page(u)) && s.Backed(Page(v)) && s.Phys(u) != s.Phys(v)
  {
    if s.Phys(u) == s.Phys(v) {
      AlignedSum(s.table[Page(u)], Offset(u), s.table[Page(v)], Offset(v));
    }
  }

  /** Once all requests are served, they have frames of their own exactly if at most 15 drivers were loaded. */
  lemma OwnFramesIff(s: Space, n: nat)
    requires s.Sound() && forall i :: 0 <= i < |Requests(n)| ==> s.Backed(Page(Requests(n)[i]))
    ensures OwnFrames(s, Requests(n)) <==> n <= 15
  {
    hide Requests;
    NoCollisionIff(n);
    RequestsAligned(n);
    var all := Requests(n);
    if Distinct(all) {
      forall i, j | 0 <= i < j < |all| ensures s.table[Page(all[i])] != s.table[Page(all[j])] {
        PageSplit(all[i]);
        PageSplit(all[j]);
      }
    }
  }

  /** Whatever is mapped of the layout before is ordinary memory. */
  ghost predicate PlainLayout(s: Space, n: nat) {
    forall i :: 0 <= i < |Requests(n)| && Page(Requests(n)[i]) in s.table ==> s.Backed(Page(Requests(n)[i]))
  }

  // ---- The start on a machine ----

  predicate IsElf(img: seq<Byte>) {
    |img| >= Elf.EHDR_SIZE && Elf.HasMagic(img, 0)
  }

  lemma ElfByMagic(img: seq<Byte>)
    ensures IsElf(img) <==> |img| >= 64 && img[..4] == [0x7F, 'E' as int, 'L' as int, 'F' as int]
  {
    if |img| >= 64 { Elf.MagicIff(img, 0); }
  }

  /** The drivers among the objects whose data is an ELF file, in order: these are the ones that are started. */
  function ElfOnes(archive: seq<Byte>, drivers: seq<Object>): seq<Object> {
    if drivers == [] then [] else
      var before, d := ElfOnes(archive, drivers[..|drivers| - 1]), drivers[|drivers| - 1];
      if IsElf(Data(archive, d)) then before + [d] else before
  }

  ghost function Region(low: nat, size: nat): iset<nat> {
    iset u: nat | InRegion(low, size, u)
  }

  predicate InRegion(low: nat, size: nat, u: nat) { low <= u < low + size }

  /** The addresses of an image's segments. */
  ghost function Occupied(img: seq<Byte>): iset<nat> {
    if Elf.WellFormed(img, Elf.PHDR_SIZE) then
      iset u: nat | !UserLoader.OutsideSegments(img, Elf.Phnum(img, 0), u)
    else iset{}
  }

  /** From `t` to `t2`, visible bytes changed at most at the addresses `where`. */
  ghost predicate ChangedOnly(t: Space, t2: Space, where: iset<nat>) {
    && Keeps(t, t2)
    && forall u: nat :: u < U64 && t.Backed(Page(u)) && u !in where ==> t2.Backed(Page(u)) && t2.At(u) == t.At(u)
  }

  ghost predicate ImageIn(t: Space, img: seq<Byte>) {
    t.Sound() && Elf.WellFormed(img, Elf.PHDR_SIZE) && Elf.ImageAt(t, img, Elf.PHDR_SIZE, 0, Elf.Phnum(img, 0))
  }

  lemma ReadableKept(t: Space, t2: Space, where: iset<nat>, src: nat, img: seq<Byte>)
    requires UserLoader.Readable(t, src, img) && ChangedOnly(t, t2, where) && Region(src, |img|) !! where
    ensures UserLoader.Readable(t2, src, img)
  {
    hide Page;
    forall j: nat | j < |img| ensures UserLoader.ReadableByte(t2, src, img, j) {
      assert UserLoader.ReadableByte(t, src, img, j);
      assert src + j in Region(src, |img|);
    }
  }

  lemma PreservesChangesNothing(t: Space, t2: Space)
    requires Preserves(t, t2)
    ensures ChangedOnly(t, t2, iset{})
  {
    hide Keeps, Page;
  }

  lemma LoadChangesOnly(t: Space, t2: Space, img: seq<Byte>)
    requires Elf.WellFormed(img, Elf.PHDR_SIZE) && UserLoader.UserFrame(t, t2, img, Elf.Phnum(img, 0))
    ensures ChangedOnly(t, t2, Occupied(img)) && (forall p :: p in t2.table ==> p in t.table || t2.Backed(p))
  {
    hide Keeps, Page, UserLoader.OutsideSegments, UserLoader.AskedBy, Elf.Phnum, Elf.WellFormed;
  }

  /** Every byte that could be seen in the region is zero. */
  ghost predicate Zeroed(t: Space, t2: Space, where: iset<nat>) {
    && Keeps(t, t2)
    && forall u: nat :: u < U64 && t.Backed(Page(u)) && u in where ==> t2.Backed(Page(u)) && t2.At(u) == 0
  }

  lemma ZerosZero(t: Space, t2: Space, v: nat, zeros: seq<Byte>)
    requires v < U64 && v + |zeros| <= U64 && Stored(t, t2, v, zeros) && forall i :: 0 <= i < |zeros| ==> zeros[i] == 0
    ensures Zeroed(t, t2, Region(v, |zeros|))
  {
    hide Keeps, Page;
  }

  lemma StoreChangesOnly(t: Space, t2: Space, v: nat, data: seq<Byte>)
    requires v < U64 && v + |data| <= U64 && Stored(t, t2, v, data)
    ensures ChangedOnly(t, t2, Region(v, |data|)) && t2.table == t.table
  {
    hide Keeps, Page;
  }

  /** What marshal's start keeps: mappings, its archive, and that new pages are ordinary memory. */
  ghost predicate Running(s: Space, t: Space, at: nat, archive: seq<Byte>) {
    && Keeps(s, t) && t.Sound() && UserLoader.Readable(t, at, archive)
    && (forall p :: p in t.table ==> p in s.table || t.Backed(p))
  }

  lemma RunningStep(s: Space, t: Space, t2: Space, at: nat, archive: seq<Byte>, where: iset<nat>)
    requires Running(s, t, at, archive) && ChangedOnly(t, t2, where) && Region(at, |archive|) !! where
    requires forall p :: p in t2.table ==> p in t.table || t2.Backed(p)
    ensures Running(s, t2, at, archive)
  {
    hide Keeps, UserLoader.Readable, Page, ChangedOnly, Region;
    ReadableKept(t, t2, where, at, archive);
    ChangedKeeps(t, t2, where);
    KeepsTransitive(s, t, t2);
    KernelLoader.KeepsIsSound(s, t2);
    forall p | p in t2.table && p !in s.table ensures t2.Backed(p) {
      if p in t.table { KernelLoader.StillBackedBy(t, t2, p); }
    }
  }

  lemma ChangedKeeps(t: Space, t2: Space, where: iset<nat>)
    requires ChangedOnly(t, t2, where)
    ensures Keeps(t, t2)
  {
  }

  /** A driver that is an ELF file is a well-formed one; its segments overlap neither the archive nor the heap, which
      marshal reads while it goes on, and where they are mapped already there is ordinary memory. */
  ghost predicate GoodDriver(s: Space, at: nat, archive: seq<Byte>, d: Object) {
    var img := Data(archive, d);
    && d.from <= d.to <= |archive|
    && (IsElf(img) ==>
          && Elf.WellFormed(img, Elf.PHDR_SIZE)
          && (forall i: nat :: i < Elf.Phnum(img, 0) && Elf.Header(img, Elf.PHDR_SIZE, i).loadable ==>
                UserLoader.PlainTarget(s, Elf.Header(img, Elf.PHDR_SIZE, i)))
          && Occupied(img) !! Region(at, |archive|) && Occupied(img) !! Region(HEAP_START, HEAP_PAGES * PAGE_SIZE))
  }

  ghost predicate GoodDrivers(s: Space, at: nat, archive: seq<Byte>, drivers: seq<Object>) {
    forall i :: 0 <= i < |drivers| ==> GoodDriver(s, at, archive, drivers[i])
  }

  /** An image off the archive is off its own slice of it. */
  lemma OffSlice(s: Space, at: nat, archive: seq<Byte>, d: Object)
    requires GoodDriver(s, at, archive, d) && IsElf(Data(archive, d))
    ensures UserLoader.OffSource(Data(archive, d), at + d.from)
  {
    hide Elf.Header, Elf.Phnum, Elf.HasMagic, UserLoader.PlainTarget;
    var img := Data(archive, d);
    forall i: nat, u: nat | i < Elf.Phnum(img, 0) && Elf.Header(img, Elf.PHDR_SIZE, i).loadable
      ensures !(UserLoader.InSegment(Elf.Header(img, Elf.PHDR_SIZE, i), u) && at + d.from <= u < at + d.from + |img|)
    {
      if UserLoader.InSegment(Elf.Header(img, Elf.PHDR_SIZE, i), u) {
        assert u in Occupied(img);
        assert u !in Region(at, |archive|);
      }
    }
  }

  /** The archive stays readable, so each driver's slice is; and a good driver is loadable at every later time. */
  lemma DriverLoadable(s: Space, t: Space, at: nat, archive: seq<Byte>, d: Object)
    requires Running(s, t, at, archive) && GoodDriver(s, at, archive, d) && at + |archive| < U64
    ensures UserLoader.Readable(t, at + d.from, Data(archive, d))
    ensures IsElf(Data(archive, d)) ==> UserLoader.UserLoadable(t, at + d.from, Data(archive, d))
  {
    hide Page, Keeps, Elf.Header, Elf.Phnum, Occupied, Region, UserLoader.OffSource, Elf.HasMagic, UserLoader.Readable,
         UserLoader.PlainTarget, Elf.SegmentFits, Running;
    var img := Data(archive, d);
    SliceReadable(s, t, at, archive, d);
    if IsElf(img) {
      OffSlice(s, at, archive, d);
      forall i: nat | i < Elf.Phnum(img, 0) && Elf.Header(img, Elf.PHDR_SIZE, i).loadable
        ensures UserLoader.PlainTarget(t, Elf.Header(img, Elf.PHDR_SIZE, i))
      {
        StillPlain(s, t, at, archive, Elf.Header(img, Elf.PHDR_SIZE, i));
      }
    }
  }

  lemma SliceReadable(s: Space, t: Space, at: nat, archive: seq<Byte>, d: Object)
    requires Running(s, t, at, archive) && d.from <= d.to <= |archive|
    ensures UserLoader.Readable(t, at + d.from, Data(archive, d))
  {
    hide Page, Keeps;
    var img, src := Data(archive, d), at + d.from;
    forall j: nat | j < |img| ensures UserLoader.ReadableByte(t, src, img, j) {
      assert UserLoader.ReadableByte(t, at, archive, d.from + j);
    }
  }

  lemma StillPlain(s: Space, t: Space, at: nat, archive: seq<Byte>, ph: Elf.Phdr)
    requires Running(s, t, at, archive) && UserLoader.PlainTarget(s, ph)
    ensures UserLoader.PlainTarget(t, ph)
  {
    hide Page, UserLoader.Readable, Keeps;
    forall u: nat | UserLoader.InSegment(ph, u) && Page(u) in t.table ensures t.Backed(Page(u)) {
      if Page(u) in s.table { KernelLoader.StillBackedBy(s, t, Page(u)); }
    }
  }

  /** Every ELF driver so far is in memory. */
  ghost predicate ImagesIn(t: Space, archive: seq<Byte>, drivers: seq<Object>) {
    forall i :: 0 <= i < |drivers| && IsElf(Data(archive, drivers[i])) ==> ImageIn(t, Data(archive, drivers[i]))
  }

  /** What an image puts at the address, if anything. */
  ghost function PutBy(img: seq<Byte>, u: nat): Option<Byte> {
    if IsElf(img) && Elf.WellFormed(img, Elf.PHDR_SIZE) then UserLoader.FinalByte(img, Elf.Phnum(img, 0), u) else None
  }

  /** What the last driver around the address puts there, if there is one. */
  ghost function Final(archive: seq<Byte>, drivers: seq<Object>, u: nat): Option<Byte> {
    if drivers == [] then None else
      var b := PutBy(Data(archive, drivers[|drivers| - 1]), u);
      if b.Some? then b else Final(archive, drivers[..|drivers| - 1], u)
  }

  /** The address holds that byte. */
  ghost predicate FinalHeld(t: Space, archive: seq<Byte>, drivers: seq<Object>, u: nat)
    requires t.Sound()
  {
    var b := Final(archive, drivers, u);
    b.Some? ==> u < U64 && t.Backed(Page(u)) && t.At(u) == b.value
  }

  ghost predicate DriversLaid(t: Space, archive: seq<Byte>, drivers: seq<Object>) {
    t.Sound() && forall u: nat :: FinalHeld(t, archive, drivers, u)
  }

  lemma FinalNext(archive: seq<Byte>, drivers: seq<Object>, j: nat, u: nat)
    requires j < |drivers|
    ensures var b := PutBy(Data(archive, drivers[j]), u);
            Final(archive, drivers[..j + 1], u) == if b.Some? then b else Final(archive, drivers[..j], u)
  {
    hide PutBy, Data;
    assert drivers[..j + 1][..j] == drivers[..j];
  }

  /** An image puts something exactly at the addresses of its segments. */
  lemma PutByIff(img: seq<Byte>, u: nat)
    requires IsElf(img) && Elf.WellFormed(img, Elf.PHDR_SIZE)
    ensures PutBy(img, u).Some? <==> u in Occupied(img)
  {
    hide Elf.Header, Elf.Phnum, Elf.HasMagic, UserLoader.FinalByte, UserLoader.InSegment;
    if PutBy(img, u).Some? {
      var j := UserLoader.FinalByteFrom(img, Elf.Phnum(img, 0), u);
      assert !UserLoader.OutsideSegments(img, Elf.Phnum(img, 0), u);
    }
    if !UserLoader.OutsideSegments(img, Elf.Phnum(img, 0), u) {
      var i: nat :| i < Elf.Phnum(img, 0) && Elf.Header(img, Elf.PHDR_SIZE, i).loadable
        && UserLoader.InSegment(Elf.Header(img, Elf.PHDR_SIZE, i), u);
      assert UserLoader.Around(img, i, u);
      UserLoader.FinalByteExists(img, Elf.Phnum(img, 0), u, i);
    }
  }

  /** One more driver: its own bytes are in place, the others are as they were. */
  lemma DriversLaidStep(t: Space, t1: Space, archive: seq<Byte>, drivers: seq<Object>, j: nat)
    requires j < |drivers| && DriversLaid(t, archive, drivers[..j]) && t1.Sound()
    requires var img := Data(archive, drivers[j]);
      && IsElf(img) && Elf.WellFormed(img, Elf.PHDR_SIZE) && UserLoader.Laid(t1, img, Elf.Phnum(img, 0))
      && ChangedOnly(t, t1, Occupied(img))
    ensures DriversLaid(t1, archive, drivers[..j + 1])
  {
    hide Final, Occupied, Data, Keeps, Page, Elf.WellFormed, Elf.Phnum, Elf.HasMagic, UserLoader.FinalByte;
    var img, after := Data(archive, drivers[j]), drivers[..j + 1];
    forall u: nat ensures FinalHeld(t1, archive, after, u) {
      FinalNext(archive, drivers, j, u);
      PutByIff(img, u);
      assert FinalHeld(t, archive, drivers[..j], u);
      assert UserLoader.LaidByte(t1, img, Elf.Phnum(img, 0), u);
    }
  }

  lemma DriversLaidSkip(t: Space, archive: seq<Byte>, drivers: seq<Object>, j: nat)
    requires j < |drivers| && DriversLaid(t, archive, drivers[..j]) && !IsElf(Data(archive, drivers[j]))
    ensures DriversLaid(t, archive, drivers[..j + 1])
  {
    hide Final, Data, Page, IsElf;
    var after := drivers[..j + 1];
    forall u: nat ensures FinalHeld(t, archive, after, u) {
      FinalNext(archive, drivers, j, u);
      assert FinalHeld(t, archive, drivers[..j], u);
    }
  }

  lemma DriversLaidKept(t: Space, t2: Space, archive: seq<Byte>, drivers: seq<Object>)
    requires DriversLaid(t, archive, drivers) && ChangedOnly(t, t2, iset{})
    ensures DriversLaid(t2, archive, drivers)
  {
    hide Final, Keeps, Page;
    ChangedKeeps(t, t2, iset{});
    KernelLoader.KeepsIsSound(t, t2);
    forall u: nat ensures FinalHeld(t2, archive, drivers, u) {
      assert FinalHeld(t, archive, drivers, u);
    }
  }

  // ---- When every driver survives ----

  /** Whatever two ELF files among the drivers, or two segments of one, prescribe for the same address is the same. This is
      a property of the archive alone. */
  ghost predicate AllAgree(archive: seq<Byte>, drivers: seq<Object>) {
    forall i, j :: 0 <= i < |drivers| && 0 <= j < |drivers| ==> PairAgrees(Data(archive, drivers[i]), Data(archive, drivers[j]))
  }

  ghost predicate PairAgrees(a: seq<Byte>, b: seq<Byte>) {
    GoodElf(a) && GoodElf(b) ==> UserLoader.Agree(a, b)
  }

  ghost predicate GoodElf(img: seq<Byte>) {
    IsElf(img) && Elf.WellFormed(img, Elf.PHDR_SIZE)
  }

  /** The byte that the last driver puts somewhere is one that a driver prescribes there. */
  lemma {:induction false} FinalFrom(archive: seq<Byte>, drivers: seq<Object>, u: nat) returns (i: nat, k: nat)
    requires Final(archive, drivers, u).Some?
    ensures i < |drivers| && GoodElf(Data(archive, drivers[i]))
    ensures var img := Data(archive, drivers[i]);
            && k < Elf.Phnum(img, 0) && UserLoader.Around(img, k, u)
            && Final(archive, drivers, u) == Some(UserLoader.ByteOf(img, k, u))
  {
    hide UserLoader.Around, UserLoader.ByteOf, UserLoader.FinalByte, Elf.WellFormed, Elf.HasMagic, Elf.Phnum, Data;
    var last := |drivers| - 1;
    var img := Data(archive, drivers[last]);
    if PutBy(img, u).Some? {
      i := last;
      k := UserLoader.FinalByteFrom(img, Elf.Phnum(img, 0), u);
    } else {
      i, k := FinalFrom(archive, drivers[..last], u);
    }
  }

  lemma {:induction false} FinalExists(archive: seq<Byte>, drivers: seq<Object>, i: nat, k: nat, u: nat)
    requires i < |drivers| && GoodElf(Data(archive, drivers[i]))
    requires k < Elf.Phnum(Data(archive, drivers[i]), 0) && UserLoader.Around(Data(archive, drivers[i]), k, u)
    ensures Final(archive, drivers, u).Some?
  {
    hide UserLoader.Around, UserLoader.ByteOf, UserLoader.FinalByte, Elf.WellFormed, Elf.HasMagic, Elf.Phnum, Data;
    if i == |drivers| - 1 {
      UserLoader.FinalByteExists(Data(archive, drivers[i]), Elf.Phnum(Data(archive, drivers[i]), 0), u, k);
    } else {
      FinalExists(archive, drivers[..|drivers| - 1], i, k, u);
    }
  }

  lemma PairAt(archive: seq<Byte>, drivers: seq<Object>, i: nat, j: nat)
    requires AllAgree(archive, drivers) && i < |drivers| && j < |drivers|
    requires GoodElf(Data(archive, drivers[i])) && GoodElf(Data(archive, drivers[j]))
    ensures UserLoader.Agree(Data(archive, drivers[i]), Data(archive, drivers[j]))
  {
    hide GoodElf, UserLoader.Agree, Data;
    assert PairAgrees(Data(archive, drivers[i]), Data(archive, drivers[j]));
  }

  /** If they agree, every byte a driver prescribes is the final one. */
  lemma AgreedByte(archive: seq<Byte>, drivers: seq<Object>, i: nat, k: nat, u: nat)
    requires AllAgree(archive, drivers) && i < |drivers| && GoodElf(Data(archive, drivers[i]))
    requires k < Elf.Phnum(Data(archive, drivers[i]), 0) && UserLoader.Around(Data(archive, drivers[i]), k, u)
    ensures Final(archive, drivers, u) == Some(UserLoader.ByteOf(Data(archive, drivers[i]), k, u))
  {
    hide UserLoader.Around, UserLoader.ByteOf, Elf.WellFormed, Elf.HasMagic, Elf.Phnum, Data, Final, AllAgree,
         UserLoader.Agree;
    FinalExists(archive, drivers, i, k, u);
    var j, m := FinalFrom(archive, drivers, u);
    PairAt(archive, drivers, i, j);
    UserLoader.AgreeAt(Data(archive, drivers[i]), Data(archive, drivers[j]), k, m, u);
  }

  lemma OneImage(t: Space, archive: seq<Byte>, drivers: seq<Object>, i: nat)
    requires ImagesIn(t, archive, drivers) && i < |drivers| && IsElf(Data(archive, drivers[i]))
    ensures ImageIn(t, Data(archive, drivers[i]))
  {
    hide ImageIn, IsElf, Data;
  }

  /** Images that are in memory together agree. */
  lemma InMemoryAgree(t: Space, archive: seq<Byte>, drivers: seq<Object>)
    requires ImagesIn(t, archive, drivers)
    ensures AllAgree(archive, drivers)
  {
    hide Elf.WellFormed, Elf.HasMagic, Elf.Phnum, Data, UserLoader.Agree, ImagesIn, Elf.ImageAt;
    forall i, j | 0 <= i < |drivers| && 0 <= j < |drivers|
      ensures PairAgrees(Data(archive, drivers[i]), Data(archive, drivers[j]))
    {
      var a, b := Data(archive, drivers[i]), Data(archive, drivers[j]);
      if GoodElf(a) && GoodElf(b) {
        OneImage(t, archive, drivers, i);
        OneImage(t, archive, drivers, j);
        UserLoader.TogetherAgree(t, a, b);
      }
    }
  }

  /** After the drivers were started, all of them can be read back if and only if they agree. */
  lemma DriversSurviveIff(s: Space, t: Space, at: nat, archive: seq<Byte>, drivers: seq<Object>)
    requires GoodDrivers(s, at, archive, drivers) && DriversLaid(t, archive, drivers)
    ensures ImagesIn(t, archive, drivers) <==> AllAgree(archive, drivers)
  {
    hide Elf.WellFormed, Elf.HasMagic, Elf.Phnum, Data, UserLoader.Around, UserLoader.ByteOf, Final, AllAgree, Page,
         ImageIn, GoodDrivers;
    if ImagesIn(t, archive, drivers) { InMemoryAgree(t, archive, drivers); }
    if AllAgree(archive, drivers) {
      forall i | 0 <= i < |drivers| && IsElf(Data(archive, drivers[i])) ensures ImageIn(t, Data(archive, drivers[i])) {
        GoodIsElf(s, at, archive, drivers, i);
        var img := Data(archive, drivers[i]);
        forall k: nat, u: nat | k < Elf.Phnum(img, 0) && UserLoader.Around(img, k, u)
          ensures t.Backed(Page(u)) && t.At(u) == UserLoader.ByteOf(img, k, u)
        {
          AgreedByte(archive, drivers, i, k, u);
          assert FinalHeld(t, archive, drivers, u);
        }
        BytesMakeImageIn(t, img);
      }
    }
  }

  lemma GoodIsElf(s: Space, at: nat, archive: seq<Byte>, drivers: seq<Object>, i: nat)
    requires GoodDrivers(s, at, archive, drivers) && i < |drivers| && IsElf(Data(archive, drivers[i]))
    ensures GoodElf(Data(archive, drivers[i]))
  {
    hide Occupied, Elf.WellFormed, Data, IsElf;
    assert GoodDriver(s, at, archive, drivers[i]);
  }

  lemma BytesMakeImageIn(t: Space, img: seq<Byte>)
    requires t.Sound() && GoodElf(img)
    requires forall k: nat, u: nat :: k < Elf.Phnum(img, 0) && UserLoader.Around(img, k, u) ==>
      t.Backed(Page(u)) && t.At(u) == UserLoader.ByteOf(img, k, u)
    ensures ImageIn(t, img)
  {
    hide UserLoader.Around, UserLoader.ByteOf, Page, Elf.HasMagic, Elf.Phnum, Elf.WellFormed, Elf.ImageAt;
    UserLoader.BytesMakeImage(t, img);
  }

  /** Where a driver reaches into the deep stack, it prescribes zeros. */
  ghost predicate ZeroOnDeep(archive: seq<Byte>, drivers: seq<Object>) {
    forall i, k: nat, u: nat :: 0 <= i < |drivers| && DeepByte(Data(archive, drivers[i]), k, u) ==>
      UserLoader.ByteOf(Data(archive, drivers[i]), k, u) == 0
  }

  /** Segment `k` of the image is around the address `u` of the deep stack. */
  ghost predicate DeepByte(img: seq<Byte>, k: nat, u: nat) {
    GoodElf(img) && k < Elf.Phnum(img, 0) && UserLoader.Around(img, k, u) && u in Region(DEEP_BASE, DEEP_PAGES * PAGE_SIZE)
  }

  /** At the end of the start the deep stack is cleared, and the rest is what the last driver around it put there. */
  ghost function AtEnd(archive: seq<Byte>, drivers: seq<Object>, u: nat): Option<Byte> {
    var b := Final(archive, drivers, u);
    if b.Some? && u in Region(DEEP_BASE, DEEP_PAGES * PAGE_SIZE) then Some(0) else b
  }

  ghost predicate EndHeld(t: Space, archive: seq<Byte>, drivers: seq<Object>, u: nat)
    requires t.Sound()
  {
    var b := AtEnd(archive, drivers, u);
    b.Some? ==> u < U64 && t.Backed(Page(u)) && t.At(u) == b.value
  }

  ghost predicate LaidAtEnd(t: Space, archive: seq<Byte>, drivers: seq<Object>) {
    t.Sound() && forall u: nat :: EndHeld(t, archive, drivers, u)
  }

  lemma LaidThenCleared(t: Space, t2: Space, archive: seq<Byte>, drivers: seq<Object>)
    requires DriversLaid(t, archive, drivers)
    requires var deep := Region(DEEP_BASE, DEEP_PAGES * PAGE_SIZE); ChangedOnly(t, t2, deep) && Zeroed(t, t2, deep)
    ensures LaidAtEnd(t2, archive, drivers)
  {
    hide Final, Keeps, Page, Region;
    ChangedKeeps(t, t2, Region(DEEP_BASE, DEEP_PAGES * PAGE_SIZE));
    KernelLoader.KeepsIsSound(t, t2);
    forall u: nat ensures EndHeld(t2, archive, drivers, u) {
      assert FinalHeld(t, archive, drivers, u);
    }
  }

  /** At the end of the start, all drivers can be read back if and only if they agree with each other and with a cleared deep
      stack. */
  lemma EndSurviveIff(s: Space, t: Space, at: nat, archive: seq<Byte>, drivers: seq<Object>)
    requires GoodDrivers(s, at, archive, drivers) && LaidAtEnd(t, archive, drivers)
    ensures ImagesIn(t, archive, drivers) <==> AllAgree(archive, drivers) && ZeroOnDeep(archive, drivers)
  {
    hide Elf.WellFormed, Elf.HasMagic, Elf.Phnum, Data, UserLoader.Around, UserLoader.ByteOf, Final, AllAgree, Page, ImageIn,
         GoodDrivers, Region;
    if ImagesIn(t, archive, drivers) {
      InMemoryAgree(t, archive, drivers);
      forall i, k: nat, u: nat | 0 <= i < |drivers| && DeepByte(Data(archive, drivers[i]), k, u)
        ensures UserLoader.ByteOf(Data(archive, drivers[i]), k, u) == 0
      {
        DeepIsZero(t, archive, drivers, i, k, u);
      }
    }
    if AllAgree(archive, drivers) && ZeroOnDeep(archive, drivers) {
      forall i | 0 <= i < |drivers| && IsElf(Data(archive, drivers[i])) ensures ImageIn(t, Data(archive, drivers[i])) {
        GoodIsElf(s, at, archive, drivers, i);
        var img := Data(archive, drivers[i]);
        forall k: nat, u: nat | k < Elf.Phnum(img, 0) && UserLoader.Around(img, k, u)
          ensures t.Backed(Page(u)) && t.At(u) == UserLoader.ByteOf(img, k, u)
        {
          AgreedByte(archive, drivers, i, k, u);
          assert EndHeld(t, archive, drivers, u);
          assert u in Region(DEEP_BASE, DEEP_PAGES * PAGE_SIZE) ==> DeepByte(img, k, u);
        }
        BytesMakeImageIn(t, img);
      }
    }
  }

  lemma DeepIsZero(t: Space, archive: seq<Byte>, drivers: seq<Object>, i: nat, k: nat, u: nat)
    requires LaidAtEnd(t, archive, drivers) && ImagesIn(t, archive, drivers) && i < |drivers|
    requires DeepByte(Data(archive, drivers[i]), k, u)
    ensures UserLoader.ByteOf(Data(archive, drivers[i]), k, u) == 0
  {
    hide Elf.WellFormed, Elf.HasMagic, Elf.Phnum, Data, UserLoader.Around, UserLoader.ByteOf, Final, Page, Region,
         ImagesIn, Elf.ImageAt;
    OneImage(t, archive, drivers, i);
    UserLoader.ImageByte(t, Data(archive, drivers[i]), k, u);
    FinalExists(archive, drivers, i, k, u);
    assert EndHeld(t, archive, drivers, u);
  }

  /** The process of the k-th ELF driver. */
  function SpawnOf(archive: seq<Byte>, d: Object, k: nat): Spawn
    requires IsElf(Data(archive, d))
  {
    Spawn(Elf.EntryPoint(Data(archive, d), 0), StackOf(k) + STACK_PAGES * PAGE_SIZE)
  }

  ghost predicate SpawnedAll(archive: seq<Byte>, drivers: seq<Object>, spawned: seq<Spawn>) {
    var elfs := ElfOnes(archive, drivers);
    && |spawned| == |elfs|
    && forall i :: 0 <= i < |elfs| ==> IsElf(Data(archive, elfs[i])) && spawned[i] == SpawnOf(archive, elfs[i], i)
  }

  lemma SpawnedNext(archive: seq<Byte>, drivers: seq<Object>, j: nat, spawned: seq<Spawn>)
    requires j < |drivers| && SpawnedAll(archive, drivers[..j], spawned)
    ensures !IsElf(Data(archive, drivers[j])) ==> SpawnedAll(archive, drivers[..j + 1], spawned)
    ensures IsElf(Data(archive, drivers[j])) ==>
      SpawnedAll(archive, drivers[..j + 1], spawned + [SpawnOf(archive, drivers[j], |spawned|)])
  {
    hide IsElf, Data, StackOf;
    assert drivers[..j + 1][..j] == drivers[..j];
  }

  /** All acceptable pages of the list are mapped. */
  ghost predicate AllGranted(table: map<nat, nat>, pages: seq<nat>) {
    forall i :: 0 <= i < |pages| && IsSafeUserPtr(pages[i], PAGE_SIZE) ==> Page(pages[i]) in table
  }

  lemma GrantedLater(t: Space, t2: Space, pages: seq<nat>)
    requires AllGranted(t.table, pages) && Keeps(t, t2)
    ensures AllGranted(t2.table, pages)
  {
  }

  lemma GrantedBoth(table: map<nat, nat>, a: seq<nat>, b: seq<nat>)
    requires AllGranted(table, a) && AllGranted(table, b)
    ensures AllGranted(table, a + b)
  {
  }

  /** No page of the zone became mapped. */
  ghost predicate NoneIn(s: Space, t: Space, zone: iset<nat>) {
    forall p :: p in zone && p in t.table ==> p in s.table
  }

  /** The zone lies below the heap, and no driver asks for a page of it. */
  ghost predicate OffZone(archive: seq<Byte>, drivers: seq<Object>, zone: iset<nat>) {
    && (forall p :: p in zone ==> p < Page(HEAP_START))
    && forall i, p: nat :: 0 <= i < |drivers| && p in zone ==> !AsksFor(Data(archive, drivers[i]), p)
  }

  /** The image is an ELF file and asks for page `p`. */
  ghost predicate AsksFor(img: seq<Byte>, p: nat) {
    GoodElf(img) && UserLoader.AskedBy(img, Elf.Phnum(img, 0), p)
  }

  lemma LoadOffZone(t: Space, t1: Space, archive: seq<Byte>, drivers: seq<Object>, j: nat, zone: iset<nat>)
    requires j < |drivers| && OffZone(archive, drivers, zone) && GoodElf(Data(archive, drivers[j]))
    requires UserLoader.UserFrame(t, t1, Data(archive, drivers[j]), Elf.Phnum(Data(archive, drivers[j]), 0))
    ensures NoneIn(t, t1, zone)
  {
    hide Keeps, UserLoader.AskedBy, UserLoader.OutsideSegments, Elf.WellFormed, Elf.HasMagic, Elf.Phnum, Data, Page;
    forall p: nat | p in zone && p in t1.table ensures p in t.table {
      assert !AsksFor(Data(archive, drivers[j]), p);
    }
  }

  lemma GrantOffZone(t: Space, t1: Space, base: nat, n: nat, zone: iset<nat>)
    requires MapsAmong(t, t1, Pages(base, n)) && base >= HEAP_START && forall p :: p in zone ==> p < Page(HEAP_START)
    ensures NoneIn(t, t1, zone)
  {
    assert forall i :: 0 <= i < |Pages(base, n)| ==> Page(Pages(base, n)[i]) >= Page(HEAP_START);
  }

  /** All bytes of the region that a user can see are zero, and all its pages are mapped. */
  ghost predicate Blank(t: Space, where: iset<nat>) {
    t.Sound() && forall u: nat :: u in where ==> u < U64 && Page(u) in t.table && (t.Backed(Page(u)) ==> t.At(u) == 0)
  }

  lemma BlankKept(t: Space, t2: Space, changed: iset<nat>, where: iset<nat>)
    requires Blank(t, where) && ChangedOnly(t, t2, changed) && changed !! where
    ensures Blank(t2, where)
  {
    hide Page, Keeps;
    ChangedKeeps(t, t2, changed);
    KernelLoader.KeepsIsSound(t, t2);
    forall u: nat | u in where ensures Page(u) in t2.table && (t2.Backed(Page(u)) ==> t2.At(u) == 0) {
      SameMapping(t, t2, Page(u));
    }
  }

  lemma SameMapping(t: Space, t2: Space, p: nat)
    requires Keeps(t, t2) && p in t.table
    ensures p in t2.table && (t2.Backed(p) <==> t.Backed(p))
  {
  }

  ghost function HeapRegion(): iset<nat> { Region(HEAP_START, HEAP_PAGES * PAGE_SIZE) }

  /** The driver's load stops for lack of a page that it does not ask for. */
  ghost predicate Starves(s: Space, img: seq<Byte>) {
    GoodElf(img) && UserLoader.Starved(s, img, Elf.Phnum(img, 0))
  }

  ghost predicate SomeStarves(s: Space, archive: seq<Byte>, drivers: seq<Object>) {
    exists i :: 0 <= i < |drivers| && Starves(s, Data(archive, drivers[i]))
  }

  /** A page that is missing later was missing before. */
  lemma StarvedBefore(s: Space, t: Space, img: seq<Byte>)
    requires Keeps(s, t) && GoodElf(img) && UserLoader.Starved(t, img, Elf.Phnum(img, 0))
    ensures Starves(s, img)
  {
    hide Elf.WellFormed, Elf.HasMagic, Elf.Phnum, Elf.Header, UserLoader.AskedBy, Page;
    var i: nat, u: nat :| i < Elf.Phnum(img, 0) && UserLoader.Missing(t, img, i, u);
    assert UserLoader.Missing(s, img, i, u);
  }

  /** One driver: load it, and if it is an ELF file grant its stack and spawn it. */
  method StartDriverOn(k: Kernel, at: nat, archive: seq<Byte>, drivers: seq<Object>, j: nat, stack: nat, ghost s: Space,
                       ghost zone: iset<nat>)
    returns (r: SysResult, spawn: Option<Spawn>)
    requires k.Valid() && at + |archive| < U64 && j < |drivers| && GoodDrivers(s, at, archive, drivers)
    requires Running(s, k.S(), at, archive) && DriversLaid(k.S(), archive, drivers[..j])
    requires stack >= HEAP_START && OffZone(archive, drivers, zone) && Blank(k.S(), HeapRegion())
    modifies k, k.allocator
    ensures k.Valid() && k.mapErrors >= old(k.mapErrors) && Running(s, k.S(), at, archive) && Keeps(old(k.S()), k.S())
    ensures NoneIn(old(k.S()), k.S(), zone) && Blank(k.S(), HeapRegion())
    ensures r.Halt? ==>
      k.allocator.handed == |k.S().all| || k.mapErrors > old(k.mapErrors) || SomeStarves(s, archive, drivers)
    ensures r.Value? ==>
      && DriversLaid(k.S(), archive, drivers[..j + 1])
      && (spawn.Some? <==> IsElf(Data(archive, drivers[j])))
      && (spawn.Some? ==>
            && spawn.value == Spawn(Elf.EntryPoint(Data(archive, drivers[j]), 0), stack + STACK_PAGES * PAGE_SIZE)
            && (k.mapErrors == old(k.mapErrors) ==> AllGranted(k.table, Pages(stack, STACK_PAGES))))
  {
    hide OneRole, AllFrames, NoOverflow, CursorAt, Preserves, Keeps, Running, DriversLaid, GoodDrivers, GoodDriver, Occupied,
         UserLoader.UserLoadable, UserLoader.UserFrame, UserLoader.Readable, Elf.EntryPoint, Elf.HasMagic, Elf.ImageAt,
         UserLoader.Laid, UserLoader.Agree, Region,
         UserLoader.Starved, ChangedOnly, IsSafeUserPtr, Pages, Data, IsElf, OffZone, NoneIn, Blank, HeapRegion, MapsAmong,
         SomeStarves;
    ghost var t := k.S();
    var d := drivers[j];
    GoodOne(s, at, archive, drivers, j);
    DriverLoadable(s, t, at, archive, d);
    var img := Data(archive, d);
    var l := UserLoader.Load(k, at + d.from, d.to - d.from, img);
    ghost var t1 := k.S();
    ElfByMagic(img);
    LoadKeepsRunning(s, t, t1, at, archive, d);
    LoadLeaves(s, t, t1, at, archive, drivers, j, zone);
    if l.NotElf? {
      DriversLaidSkip(t, archive, drivers, j);
      return Value(0), None;
    }
    if !l.Loaded? {
      if l.Fault? && k.mapErrors == old(k.mapErrors) { DriverStarved(s, t, at, archive, drivers, j); }
      return Halt, None;
    }
    ElfIsLaid(s, t, t1, at, archive, drivers, j);
    var g := GrantAll(k, Pages(stack, STACK_PAGES));
    PreservesChangesNothing(t1, k.S());
    KernelLoader.PreservesIsKeeps(t1, k.S());
    RunningStep(s, t1, k.S(), at, archive, iset{});
    DriversLaidKept(t1, k.S(), archive, drivers[..j + 1]);
    KeepsTransitive(t, t1, k.S());
    StackLeaves(t, t1, k.S(), stack, archive, drivers, zone);
    if g.Halt? {
      return Halt, None;
    }
    return Value(0), Some(Spawn(l.entry, stack + 16 * 4096));
  }

  /** A load maps nothing in the zone and leaves the heap blank. */
  lemma LoadLeaves(s: Space, t: Space, t1: Space, at: nat, archive: seq<Byte>, drivers: seq<Object>, j: nat, zone: iset<nat>)
    requires j < |drivers| && GoodDriver(s, at, archive, drivers[j]) && OffZone(archive, drivers, zone) && Keeps(t, t1)
    requires UserLoader.Safe(Data(archive, drivers[j]), at + drivers[j].from) ==>
      UserLoader.UserFrame(t, t1, Data(archive, drivers[j]), Elf.Phnum(Data(archive, drivers[j]), 0))
    requires !IsElf(Data(archive, drivers[j])) ==> t1 == t
    requires IsElf(Data(archive, drivers[j])) ==> ChangedOnly(t, t1, Occupied(Data(archive, drivers[j])))
    requires Blank(t, HeapRegion())
    ensures NoneIn(t, t1, zone) && Blank(t1, HeapRegion())
  {
    hide Keeps, UserLoader.UserFrame, Occupied, Region, ChangedOnly, Elf.WellFormed, Elf.HasMagic, Elf.Header, Elf.Phnum,
         UserLoader.OffSource, OffZone, Blank, Data;
    var img := Data(archive, drivers[j]);
    if IsElf(img) {
      OffSlice(s, at, archive, drivers[j]);
      LoadOffZone(t, t1, archive, drivers, j, zone);
      BlankKept(t, t1, Occupied(img), HeapRegion());
    }
  }

  lemma DriverStarved(s: Space, t: Space, at: nat, archive: seq<Byte>, drivers: seq<Object>, j: nat)
    requires j < |drivers| && GoodDriver(s, at, archive, drivers[j]) && IsElf(Data(archive, drivers[j]))
    requires Running(s, t, at, archive)
    requires Elf.WellFormed(Data(archive, drivers[j]), Elf.PHDR_SIZE) ==>
      UserLoader.Starved(t, Data(archive, drivers[j]), Elf.Phnum(Data(archive, drivers[j]), 0))
    ensures SomeStarves(s, archive, drivers)
  {
    hide Keeps, Elf.WellFormed, Elf.HasMagic, Elf.Header, Elf.Phnum, Data, UserLoader.Starved, Occupied, Region,
         UserLoader.Readable;
    StarvedBefore(s, t, Data(archive, drivers[j]));
  }

  lemma StackLeaves(t: Space, t1: Space, t2: Space, stack: nat, archive: seq<Byte>, drivers: seq<Object>, zone: iset<nat>)
    requires NoneIn(t, t1, zone) && Blank(t1, HeapRegion()) && ChangedOnly(t1, t2, iset{})
    requires OffZone(archive, drivers, zone) && stack >= HEAP_START && MapsAmong(t1, t2, Pages(stack, STACK_PAGES))
    ensures NoneIn(t, t2, zone) && Blank(t2, HeapRegion())
  {
    hide ChangedOnly, Blank, MapsAmong, Pages, Region, Data, AsksFor;
    GrantOffZone(t1, t2, stack, STACK_PAGES, zone);
    BlankKept(t1, t2, iset{}, HeapRegion());
  }

  lemma GoodOne(s: Space, at: nat, archive: seq<Byte>, drivers: seq<Object>, j: nat)
    requires j < |drivers| && GoodDrivers(s, at, archive, drivers)
    ensures GoodDriver(s, at, archive, drivers[j]) && drivers[j].from <= drivers[j].to <= |archive|
    ensures |Data(archive, drivers[j])| == drivers[j].to - drivers[j].from
  {
    hide Occupied, IsElf;
  }

  /** What a load of a good driver, or of something that is no ELF file, leaves. */
  lemma LoadKeepsRunning(s: Space, t: Space, t1: Space, at: nat, archive: seq<Byte>, d: Object)
    requires Running(s, t, at, archive) && GoodDriver(s, at, archive, d) && Keeps(t, t1)
    requires UserLoader.Safe(Data(archive, d), at + d.from) ==>
      UserLoader.UserFrame(t, t1, Data(archive, d), Elf.Phnum(Data(archive, d), 0))
    requires !IsElf(Data(archive, d)) ==> t1 == t
    ensures Running(s, t1, at, archive)
    ensures IsElf(Data(archive, d)) ==> ChangedOnly(t, t1, Occupied(Data(archive, d)))
  {
    hide Running, Keeps, UserLoader.UserFrame, Occupied, Region, ChangedOnly, Elf.WellFormed, Elf.HasMagic, Elf.Header,
         Elf.Phnum,
         UserLoader.OffSource;
    var img := Data(archive, d);
    if IsElf(img) {
      OffSlice(s, at, archive, d);
      LoadChangesOnly(t, t1, img);
      RunningStep(s, t, t1, at, archive, Occupied(img));
    }
  }

  lemma ElfIsLaid(s: Space, t: Space, t1: Space, at: nat, archive: seq<Byte>, drivers: seq<Object>, j: nat)
    requires j < |drivers| && GoodDriver(s, at, archive, drivers[j]) && IsElf(Data(archive, drivers[j])) && t1.Sound()
    requires DriversLaid(t, archive, drivers[..j]) && ChangedOnly(t, t1, Occupied(Data(archive, drivers[j])))
    requires Elf.WellFormed(Data(archive, drivers[j]), Elf.PHDR_SIZE) ==>
      UserLoader.Laid(t1, Data(archive, drivers[j]), Elf.Phnum(Data(archive, drivers[j]), 0))
    ensures DriversLaid(t1, archive, drivers[..j + 1])
  {
    hide Occupied, UserLoader.Laid, Elf.WellFormed, DriversLaid, ChangedOnly;
    DriversLaidStep(t, t1, archive, drivers, j);
  }

  /** All drivers in order, each ELF file on the next stack. Every byte of their images is what the last driver around it
      puts there, and all of them can be read back exactly if they agree wherever they overlap. */
  method StartDriversOn(k: Kernel, at: nat, archive: seq<Byte>, drivers: seq<Object>, ghost s: Space, ghost zone: iset<nat>)
    returns (r: SysResult, spawned: seq<Spawn>)
    requires k.Valid() && at + |archive| < U64 && GoodDrivers(s, at, archive, drivers) && Running(s, k.S(), at, archive)
    requires OffZone(archive, drivers, zone) && Blank(k.S(), HeapRegion())
    modifies k, k.allocator
    ensures NoneIn(old(k.S()), k.S(), zone) && Blank(k.S(), HeapRegion())
    ensures r.Halt? ==>
      k.allocator.handed == |k.S().all| || k.mapErrors > old(k.mapErrors) || SomeStarves(s, archive, drivers)
    ensures k.Valid() && k.mapErrors >= old(k.mapErrors) && Running(s, k.S(), at, archive) && Keeps(old(k.S()), k.S())
    ensures r.Value? ==>
      && SpawnedAll(archive, drivers, spawned) && DriversLaid(k.S(), archive, drivers)
      && (ImagesIn(k.S(), archive, drivers) <==> AllAgree(archive, drivers))
    ensures r.Value? && k.mapErrors == old(k.mapErrors) ==> AllGranted(k.table, StackPages(|spawned|))
  {
    hide OneRole, AllFrames, NoOverflow, CursorAt, Keeps, Running, ImagesIn, DriversLaid, AllAgree, GoodDrivers,
         SpawnedAll, IsElf, Data, Pages, AllGranted,
         OffZone, Blank, HeapRegion, SomeStarves;
    KernelLoader.KeepsReflexive(k.S(), k.allocator.handed, k.roles);
    KernelLoader.KeepsIsSound(k.S(), k.S());
    NothingStarted(k.S(), archive, drivers);
    spawned, r := [], Value(0);
    var stack := 0x6000_0000_0000;
    for j := 0 to |drivers|
      invariant k.Valid() && k.mapErrors >= old(k.mapErrors) && Running(s, k.S(), at, archive) && Keeps(old(k.S()), k.S())
      invariant r.Value? && DriversLaid(k.S(), archive, drivers[..j]) && SpawnedAll(archive, drivers[..j], spawned)
      invariant stack == StackOf(|spawned|) >= HEAP_START
      invariant NoneIn(old(k.S()), k.S(), zone) && Blank(k.S(), HeapRegion())
      invariant k.mapErrors == old(k.mapErrors) ==> AllGranted(k.table, StackPages(|spawned|))
    {
      ghost var t := k.S();
      var spawn;
      r, spawn := StartDriverOn(k, at, archive, drivers, j, stack, s, zone);
      KeepsTransitive(old(k.S()), t, k.S());
      if r.Halt? {
        return;
      }
      SpawnedNext(archive, drivers, j, spawned);
      if k.mapErrors == old(k.mapErrors) { GrantedLater(t, k.S(), StackPages(|spawned|)); }
      if spawn.Some? {
        if k.mapErrors == old(k.mapErrors) {
          GrantedBoth(k.table, StackPages(|spawned|), Pages(StackOf(|spawned|), STACK_PAGES));
        }
        spawned := spawned + [spawn.value];
        stack := stack + 0x10_0000;
      }
    }
    assert drivers[..|drivers|] == drivers;
    DriversSurviveIff(s, k.S(), at, archive, drivers);
  }

  lemma NothingStarted(t: Space, archive: seq<Byte>, drivers: seq<Object>)
    requires t.Sound()
    ensures DriversLaid(t, archive, drivers[..0]) && SpawnedAll(archive, drivers[..0], []) && AllGranted(t.table, StackPages(0))
  {
  }

  /** The memset of a fresh region: zeros through the caller's own mappings. */
  method Zero(k: Kernel, base: nat, size: nat) returns (ok: bool)
    requires k.Valid() && base + size < U64
    modifies k`ram
    ensures k.Valid() && (ok ==> ChangedOnly(old(k.S()), k.S(), Region(base, size)) && Zeroed(old(k.S()), k.S(), Region(base, size)))
    ensures ok ==> Blank(k.S(), Region(base, size))
    ensures !ok ==> exists u: nat :: InRegion(base, size, u) && k.S().Faults(u)
  {
    hide OneRole, AllFrames, NoOverflow, CursorAt, Stored, Keeps, ChangedOnly, Zeroed, Region;
    ghost var t := k.S();
    var zeros := seq(size, i => 0);
    ok := k.StoreBytes(base, zeros);
    if ok {
      StoreChangesOnly(t, k.S(), base, zeros);
      ZerosZero(t, k.S(), base, zeros);
      OneRoleIsSound(k.S(), k.allocator.handed, k.roles);
      ZerosBlank(t, k.S(), base, size);
    } else {
      ghost var j :| 0 <= j < |zeros| && k.S().Faults(AddWrap(base, j));
      assert InRegion(base, size, AddWrap(base, j));
    }
  }

  lemma ZerosBlank(t: Space, t2: Space, base: nat, size: nat)
    requires base + size < U64 && t2.Sound() && t2.table == t.table && Zeroed(t, t2, Region(base, size))
    requires forall i: nat :: i < size ==> !t2.Faults(AddWrap(base, i))
    ensures Blank(t2, Region(base, size))
  {
    hide Page;
    forall u: nat | u in Region(base, size)
      ensures u < U64 && Page(u) in t2.table && (t2.Backed(Page(u)) ==> t2.At(u) == 0)
    {
      assert !t2.Faults(AddWrap(base, u - base));
      ZeroedKeeps(t, t2, Region(base, size));
      SameMapping(t, t2, Page(u));
    }
  }

  lemma ZeroedKeeps(t: Space, t2: Space, where: iset<nat>)
    requires Zeroed(t, t2, where)
    ensures Keeps(t, t2)
  {
  }

  datatype Framebuffer = Framebuffer(phys: nat, height: nat, pitch: nat)

  /** The framebuffer ends below the heap. */
  predicate FbBelowHeap(fb: Option<Framebuffer>) {
    fb.Some? ==> Page(Graphics.FB_BASE) + Graphics.FbPages(fb.value.height, fb.value.pitch) <= Page(HEAP_START)
  }

  predicate InFb(fb: Framebuffer, p: nat) {
    Page(Graphics.FB_BASE) <= p < Page(Graphics.FB_BASE) + Graphics.FbPages(fb.height, fb.pitch)
  }

  /** The pages of the framebuffer's place. */
  ghost function FbZone(fb: Option<Framebuffer>): iset<nat> {
    if fb.Some? then
      iset p: nat | InFb(fb.value, p)
    else iset{}
  }

  /** The kernel accepts the framebuffer's size, and none of its pages is mapped. */
  ghost predicate FbWelcome(table: map<nat, nat>, fb: Option<Framebuffer>) {
    fb.Some? && !Graphics.FbRefused(fb.value.height, fb.value.pitch) && Graphics.FbFree(table, fb.value.height, fb.value.pitch)
  }

  ghost predicate FbShown(table: map<nat, nat>, fb: Option<Framebuffer>) {
    fb.Some? && Graphics.FbInPlace(table, fb.value.phys, fb.value.height, fb.value.pitch)
  }

  ghost predicate FbStops(fb: Option<Framebuffer>) {
    fb.Some? && Graphics.FbPanics(fb.value.phys, fb.value.height, fb.value.pitch)
  }

  lemma StillWelcome(t: Space, t1: Space, fb: Option<Framebuffer>)
    requires FbWelcome(t.table, fb) && NoneIn(t, t1, FbZone(fb))
    ensures FbWelcome(t1.table, fb)
  {
    hide Graphics.FbPages, Graphics.FbRefused;
    forall i: nat | i < Graphics.FbPages(fb.value.height, fb.value.pitch) ensures DevicePage(Graphics.FB_BASE, i) !in t1.table {
      assert DevicePage(Graphics.FB_BASE, i) == Page(Graphics.FB_BASE) + i;
      assert InFb(fb.value, DevicePage(Graphics.FB_BASE, i));
    }
  }

  lemma StillShown(t: Space, t1: Space, fb: Option<Framebuffer>)
    requires FbShown(t.table, fb) && Keeps(t, t1)
    ensures FbShown(t1.table, fb)
  {
    hide Page, Offset;
    forall px: nat, py: nat, b: nat | px < fb.value.pitch / 4 && py < fb.value.height && b < 4
      ensures Graphics.PixelMapped(t1.table, fb.value.phys, fb.value.pitch, px, py, b)
    {
      assert Graphics.PixelMapped(t.table, fb.value.phys, fb.value.pitch, px, py, b);
    }
  }

  /** The bootloader mapped a page of the heap or of the deep stack. */
  ghost predicate BootOn(boot: set<nat>, base: nat) {
    exists p: nat :: p in boot && Page(base) <= p < Page(base) + 4096
  }

  /** A memset of pages that were granted stops only at a page of the bootloader. */
  lemma MemsetStops(t: Space, base: nat, u: nat)
    requires (base == HEAP_START || base == DEEP_BASE) && AllGranted(t.table, Pages(base, 4096))
    requires InRegion(base, 4096 * PAGE_SIZE, u) && t.Faults(u)
    ensures BootOn(t.boot, base)
  {
    var i := Page(u) - Page(base);
    assert Pages(base, 4096)[i] == base + i * PAGE_SIZE;
    assert IsSafeUserPtr(base + i * PAGE_SIZE, PAGE_SIZE) && Page(base + i * PAGE_SIZE) == Page(u);
  }

  lemma SharedOffZone(t: Space, t1: Space, fb: Option<Framebuffer>)
    requires MapsAmong(t, t1, [SHARED_PAGE])
    ensures NoneIn(t, t1, FbZone(fb))
  {
    hide Graphics.FbPages;
    assert Page(SHARED_PAGE) < Page(Graphics.FB_BASE);
  }

  /** New pages are ordinary memory, or the framebuffer's. */
  ghost predicate NewPages(s: Space, t: Space, fb: Option<Framebuffer>) {
    forall p :: p in t.table && p !in s.table ==>
      t.Backed(p) || (fb.Some? && Page(Graphics.FB_BASE) <= p < Page(Graphics.FB_BASE) + Graphics.FbPages(fb.value.height, fb.value.pitch))
  }

  lemma NewPagesLater(s: Space, t: Space, t2: Space, fb: Option<Framebuffer>)
    requires NewPages(s, t, fb) && Keeps(t, t2) && forall p :: p in t2.table ==> p in t.table || t2.Backed(p)
    ensures NewPages(s, t2, fb)
  {
    hide Page;
  }

  /** The second half of the start: the shared page, the framebuffer, and the deep stack with its memset. */
  method FinishStart(k: Kernel, fb: Option<Framebuffer>, ghost s: Space, ghost where: iset<nat>) returns (r: SysResult)
    requires k.Valid() && Keeps(s, k.S()) && NewPages(s, k.S(), None) && where == Region(DEEP_BASE, DEEP_PAGES * PAGE_SIZE)
    requires fb.Some? ==> Graphics.FbDevice(k.devices, fb.value.phys, fb.value.height, fb.value.pitch)
    modifies k, k.allocator
    ensures k.Valid() && k.mapErrors >= old(k.mapErrors)
    ensures r.Value? ==> ChangedOnly(old(k.S()), k.S(), where) && Zeroed(old(k.S()), k.S(), where) && NewPages(s, k.S(), fb)
    ensures r.Value? ==> Blank(k.S(), where)
    ensures r.Value? && k.mapErrors == old(k.mapErrors) && FbWelcome(old(k.table), fb) ==> FbShown(k.table, fb)
    ensures r.Halt? ==>
      k.allocator.handed == |k.S().all| || k.mapErrors > old(k.mapErrors) || FbStops(fb) || BootOn(k.boot, DEEP_BASE)
    ensures r.Value? && k.mapErrors == old(k.mapErrors) ==>
      AllGranted(k.table, [SHARED_PAGE] + Pages(DEEP_BASE, DEEP_PAGES))
  {
    hide OneRole, AllFrames, NoOverflow, CursorAt, Preserves, Keeps, IsSafeUserPtr, Pages, Graphics.FbPages,
         Graphics.FbDevice,
         NewPages, ChangedOnly, Zeroed, Region, AllGranted, Graphics.FbInPlace, Graphics.FbRefused, Graphics.FbPanics,
         Graphics.FbFree, Blank, MapsAmong, NoneIn, BootOn;
    ghost var t := k.S();
    var shared, deep := [SHARED_PAGE], Pages(DEEP_BASE, DEEP_PAGES);
    r := GrantAll(k, shared);
    ghost var t1 := k.S();
    KernelLoader.PreservesIsKeeps(t, t1);
    NewPagesLater(s, t, t1, None);
    if r.Halt? { return; }
    if k.mapErrors == old(k.mapErrors) { GrantedIs(k.table, shared); }
    SharedOffZone(t, t1, fb);
    if FbWelcome(t.table, fb) { StillWelcome(t, t1, fb); }
    if fb.Some? {
      var o := Graphics.MapFramebuffer(k, fb.value.phys, fb.value.height, fb.value.pitch);
      if o.FbHalted? { return Halt; }
    } else {
      PreservesReflexive(t1, k.allocator.handed, k.roles);
    }
    ghost var t2 := k.S();
    KernelLoader.PreservesIsKeeps(t1, t2);
    FbNewPages(s, t1, t2, fb);
    r := GrantAll(k, deep);
    ghost var t3 := k.S();
    KernelLoader.PreservesIsKeeps(t2, t3);
    NewPagesLater(s, t2, t3, fb);
    if r.Halt? { return; }
    if k.mapErrors == old(k.mapErrors) && FbWelcome(t.table, fb) { StillShown(t2, t3, fb); }
    if k.mapErrors == old(k.mapErrors) {
      GrantedIs(k.table, deep);
      GrantedLater(t1, t2, shared);
      GrantedLater(t2, t3, shared);
      GrantedBoth(k.table, shared, deep);
    }
    var ok := Zero(k, DEEP_BASE, DEEP_PAGES * PAGE_SIZE);
    if !ok {
      if k.mapErrors == old(k.mapErrors) {
        ghost var u: nat :| InRegion(DEEP_BASE, DEEP_PAGES * PAGE_SIZE, u) && k.S().Faults(u);
        MemsetStops(k.S(), DEEP_BASE, u);
      }
      return Halt;
    }
    PreservesTransitive(t, t1, t2);
    PreservesTransitive(t, t2, t3);
    PreservesThenChange(t, t3, k.S(), where);
    ChangedKeeps(t3, k.S(), where);
    NewPagesLater(s, t3, k.S(), fb);
    if k.mapErrors == old(k.mapErrors) {
      GrantedLater(t3, k.S(), shared + deep);
      if FbWelcome(t.table, fb) { StillShown(t3, k.S(), fb); }
    }
    return Value(0);
  }

  lemma GrantedIs(table: map<nat, nat>, pages: seq<nat>)
    requires forall i :: 0 <= i < |pages| && IsSafeUserPtr(pages[i], PAGE_SIZE) ==> Page(pages[i]) in table
    ensures AllGranted(table, pages)
  {
  }

  lemma FbNewPages(s: Space, t1: Space, t2: Space, fb: Option<Framebuffer>)
    requires NewPages(s, t1, None) && Keeps(t1, t2)
    requires fb.None? ==> t2 == t1
    requires fb.Some? ==> forall p :: p in t2.table && p !in t1.table ==>
      Page(Graphics.FB_BASE) <= p < Page(Graphics.FB_BASE) + Graphics.FbPages(fb.value.height, fb.value.pitch)
    ensures NewPages(s, t2, fb)
  {
    hide Page, Graphics.FbPages;
  }

  lemma PreservesThenChange(t: Space, t1: Space, t2: Space, where: iset<nat>)
    requires Preserves(t, t1) && ChangedOnly(t1, t2, where) && Zeroed(t1, t2, where)
    ensures ChangedOnly(t, t2, where) && Zeroed(t, t2, where)
  {
    hide Page;
    KeepsTransitive(t, t1, t2);
  }

  /** At the end all of the layout is backed, if it was unmapped or ordinary memory before. */
  lemma LayoutBacked(s: Space, t: Space, n: nat, fb: Option<Framebuffer>)
    requires Keeps(s, t) && NewPages(s, t, fb) && FbBelowHeap(fb) && PlainLayout(s, n) && n <= 0x200_0000
    requires AllGranted(t.table, Pages(HEAP_START, HEAP_PAGES)) && AllGranted(t.table, StackPages(n))
    requires AllGranted(t.table, [SHARED_PAGE] + Pages(DEEP_BASE, DEEP_PAGES))
    ensures forall i :: 0 <= i < |Requests(n)| ==> t.Backed(Page(Requests(n)[i]))
  {
    var heap, stacks, rest := Pages(HEAP_START, HEAP_PAGES), StackPages(n), [SHARED_PAGE] + Pages(DEEP_BASE, DEEP_PAGES);
    assert Requests(n) == heap + stacks + rest;
    AllAcceptedIff(n);
    OffFramebuffer(n);
    hide Requests, Pages, StackPages, IsSafeUserPtr, Page, Graphics.FbPages;
    GrantedBoth(t.table, heap, stacks);
    GrantedBoth(t.table, heap + stacks, rest);
    forall i | 0 <= i < |Requests(n)| ensures t.Backed(Page(Requests(n)[i])) {
      if Page(Requests(n)[i]) in s.table { KernelLoader.StillBackedBy(s, t, Page(Requests(n)[i])); }
    }
  }

  /** The layout lies below the framebuffer's place or from the heap on. */
  lemma OffFramebuffer(n: nat)
    ensures forall i :: 0 <= i < |Requests(n)| ==>
      Page(Requests(n)[i]) < Page(Graphics.FB_BASE) || Page(Requests(n)[i]) >= Page(HEAP_START)
  {
    var heap, stacks, deep := Pages(HEAP_START, HEAP_PAGES), StackPages(n), Pages(DEEP_BASE, DEEP_PAGES);
    PagesFacts(HEAP_START, HEAP_PAGES);
    PagesFacts(DEEP_BASE, DEEP_PAGES);
    StacksApart(n);
    assert forall i :: 0 <= i < |heap| ==> heap[i] >= HEAP_START;
    assert forall i :: 0 <= i < |stacks| ==> stacks[i] >= HEAP_START;
    assert forall i :: 0 <= i < |deep| ==> deep[i] >= HEAP_START;
    hide Pages, StackPages, Distinct, Within;
    var all := Requests(n);
    forall i | 0 <= i < |all| ensures Page(all[i]) < Page(Graphics.FB_BASE) || Page(all[i]) >= Page(HEAP_START) {
      assert all[i] == SHARED_PAGE || all[i] >= HEAP_START;
    }
  }

  /** Marshal's start on a machine: the heap, every driver the configuration names, the shared page, the framebuffer and
      the deep stack. If nothing halts it, a process was spawned for exactly the ELF files among the drivers, in order,
      at their entry points; every byte of their images is what the last driver around it put there, or zero in the deep
      stack; all images can be read back exactly if they agree wherever they overlap and prescribe zeros in the deep stack;
      and if the page-table code never failed, heap and stacks have frames of their own exactly if there were at most 15
      of them. */
  method StartOnMachine(k: Kernel, at: nat, archive: seq<Byte>, split: Splitter, fb: Option<Framebuffer>)
    returns (r: SysResult, spawned: seq<Spawn>)
    requires k.Valid() && at + |archive| < U64 && UserLoader.Readable(k.S(), at, archive)
    requires Region(at, |archive|) !! Region(HEAP_START, HEAP_PAGES * PAGE_SIZE)
    requires GoodDrivers(k.S(), at, archive, DriversOf(archive, split))
    requires fb.Some? ==> Graphics.FbDevice(k.devices, fb.value.phys, fb.value.height, fb.value.pitch)
    modifies k, k.allocator
    ensures k.Valid() && k.mapErrors >= old(k.mapErrors)
    ensures r.Value? ==> Blank(k.S(), HeapRegion()) && Blank(k.S(), Region(DEEP_BASE, DEEP_PAGES * PAGE_SIZE))
    ensures r.Value? && k.mapErrors == old(k.mapErrors) && FbWelcome(old(k.table), fb) ==>
      OffZone(archive, DriversOf(archive, split), FbZone(fb)) ==> FbShown(k.table, fb)
    ensures r.Halt? ==>
      || k.allocator.handed == |k.S().all| || k.mapErrors > old(k.mapErrors)
      || SomeStarves(old(k.S()), archive, DriversOf(archive, split)) || FbStops(fb)
      || BootOn(k.boot, HEAP_START) || BootOn(k.boot, DEEP_BASE)
    ensures r.Value? ==>
      && SpawnedAll(archive, DriversOf(archive, split), spawned)
      && LaidAtEnd(k.S(), archive, DriversOf(archive, split))
      && (ImagesIn(k.S(), archive, DriversOf(archive, split)) <==>
            AllAgree(archive, DriversOf(archive, split)) && ZeroOnDeep(archive, DriversOf(archive, split)))
    ensures r.Value? && k.mapErrors == old(k.mapErrors) && FbBelowHeap(fb) && |spawned| <= 0x200_0000 ==>
      PlainLayout(old(k.S()), |spawned|) ==> (OwnFrames(k.S(), Requests(|spawned|)) <==> |spawned| <= 15)
  {
    hide OneRole, AllFrames, NoOverflow, CursorAt, Preserves, Keeps, Running, ImagesIn, GoodDrivers, SpawnedAll, Pages,
         AllGranted,
         DriversLaid, LaidAtEnd, AllAgree, ZeroOnDeep, ChangedOnly, Zeroed, Region, NewPages, IsSafeUserPtr, DriversOf,
         UserLoader.Readable, Requests, StackPages, OwnFrames, PlainLayout,
         Graphics.FbDevice, FbBelowHeap, OffZone, NoneIn, FbZone, Blank, HeapRegion, MapsAmong, FbWelcome, FbShown,
         FbStops, BootOn,
         SomeStarves;
    ghost var s := k.S();
    ghost var zone := SafeZone(archive, DriversOf(archive, split), fb);
    KernelLoader.KeepsReflexive(s, k.allocator.handed, k.roles);
    RunningStart(s, at, archive);
    spawned := [];
    var heap := Pages(HEAP_START, HEAP_PAGES);
    r := GrantAll(k, heap);
    ghost var t := k.S();
    KernelLoader.PreservesIsKeeps(s, t);
    PreservesChangesNothing(s, t);
    RunningStep(s, s, t, at, archive, iset{});
    if r.Halt? { return; }
    if k.mapErrors == old(k.mapErrors) { GrantedIs(k.table, heap); }
    var ok := Zero(k, HEAP_START, HEAP_PAGES * PAGE_SIZE);
    if !ok {
      if k.mapErrors == old(k.mapErrors) {
        ghost var u: nat :| InRegion(HEAP_START, HEAP_PAGES * PAGE_SIZE, u) && k.S().Faults(u);
        MemsetStops(k.S(), HEAP_START, u);
      }
      return Halt, [];
    }
    ghost var t1 := k.S();
    HeapBlank(t1);
    ChangedKeeps(t, t1, Region(HEAP_START, HEAP_PAGES * PAGE_SIZE));
    RunningStep(s, t, t1, at, archive, Region(HEAP_START, HEAP_PAGES * PAGE_SIZE));
    var drivers := DriversOf(archive, split);
    r, spawned := StartDriversOn(k, at, archive, drivers, s, zone);
    if r.Halt? { return; }
    ghost var t2 := k.S();
    RunningFacts(s, t2, at, archive);
    if OffZone(archive, drivers, FbZone(fb)) && FbWelcome(s.table, fb) { WelcomeAtEnd(s, t, t1, t2, archive, drivers, fb); }
    r := FinishStart(k, fb, s, Region(DEEP_BASE, DEEP_PAGES * PAGE_SIZE));
    if r.Halt? { return; }
    HeapOffDeep(t2, k.S());
    LaidThenCleared(t2, k.S(), archive, drivers);
    EndSurviveIff(s, k.S(), at, archive, drivers);
    ChangedKeeps(t2, k.S(), Region(DEEP_BASE, DEEP_PAGES * PAGE_SIZE));
    KeepsTransitive(s, t2, k.S());
    if k.mapErrors == old(k.mapErrors) && FbBelowHeap(fb) && |spawned| <= 0x200_0000 && PlainLayout(s, |spawned|) {
      GrantedLater(t, t1, heap);
      GrantedLater(t1, t2, heap);
      GrantedLater(t2, k.S(), heap);
      GrantedLater(t2, k.S(), StackPages(|spawned|));
      LayoutBacked(s, k.S(), |spawned|, fb);
      OneRoleIsSound(k.S(), k.allocator.handed, k.roles);
      OwnFramesIff(k.S(), |spawned|);
    }
  }

  /** The framebuffer's place, if the drivers keep off it. */
  ghost function SafeZone(archive: seq<Byte>, drivers: seq<Object>, fb: Option<Framebuffer>): (zone: iset<nat>)
    ensures OffZone(archive, drivers, zone)
  {
    if OffZone(archive, drivers, FbZone(fb)) then FbZone(fb) else iset{}
  }

  lemma HeapBlank(t: Space)
    requires Blank(t, Region(HEAP_START, HEAP_PAGES * PAGE_SIZE))
    ensures Blank(t, HeapRegion())
  {
  }

  lemma HeapOffDeep(t: Space, t2: Space)
    requires Blank(t, HeapRegion()) && ChangedOnly(t, t2, Region(DEEP_BASE, DEEP_PAGES * PAGE_SIZE))
    ensures Blank(t2, HeapRegion())
  {
    hide Blank, ChangedOnly;
    BlankKept(t, t2, Region(DEEP_BASE, DEEP_PAGES * PAGE_SIZE), HeapRegion());
  }

  lemma WelcomeAtEnd(s: Space, t: Space, t1: Space, t2: Space, archive: seq<Byte>, drivers: seq<Object>, fb: Option<Framebuffer>)
    requires FbWelcome(s.table, fb) && OffZone(archive, drivers, FbZone(fb)) && t1.table == t.table
    requires MapsAmong(s, t, Pages(HEAP_START, HEAP_PAGES)) && NoneIn(t1, t2, SafeZone(archive, drivers, fb))
    ensures FbWelcome(t2.table, fb)
  {
    hide FbWelcome, MapsAmong, Pages, AsksFor, Data, FbZone;
    GrantOffZone(s, t, HEAP_START, HEAP_PAGES, FbZone(fb));
    StillWelcome(s, t2, fb);
  }

  /** The driver objects the configuration names. */
  function DriversOf(archive: seq<Byte>, split: Splitter): seq<Object> {
    Drivers(Members(archive, 0), Lines(archive, Members(archive, 0), split))
  }

  lemma RunningStart(s: Space, at: nat, archive: seq<Byte>)
    requires Keeps(s, s) && UserLoader.Readable(s, at, archive)
    ensures Running(s, s, at, archive)
  {
  }

  lemma RunningFacts(s: Space, t: Space, at: nat, archive: seq<Byte>)
    requires Running(s, t, at, archive)
    ensures Keeps(s, t) && NewPages(s, t, None)
  {
  }
}
