/** Package path/filepath on a system whose separator is the slash: Clean, Join and Base, component by component. */
module Paths {
  import opened Types

  /** A Go string: a sequence of bytes, each written as the character with that code. */
  type Byte = c: char | c < 256 as char
  type Text = seq<Byte>

  const SLASH: Text := "/"

  // ---------------------------------------------------------------- components

  /** What follows the last slash. */
  function LastComponent(path: Text): Text {
    if path == [] || path[|path| - 1] == '/' then []
    else LastComponent(path[..|path| - 1]) + [path[|path| - 1]]
  }

  lemma {:induction false} LastComponentOf(d: Text, name: Text)
    requires '/' !in name && (d == [] || d[|d| - 1] == '/')
    ensures LastComponent(d + name) == name
    decreases |name|
  {
    if name == [] {
      assert d + name == d;
    } else {
      var n := |name| - 1;
      LastComponentOf(d, name[..n]);
      assert (d + name)[..|d + name| - 1] == d + name[..n];
      assert name == name[..n] + [name[n]];
    }
  }

  lemma {:induction false} LastComponentEnds(path: Text)
    ensures var l := |path| - |LastComponent(path)|;
      && 0 <= l && path[l..] == LastComponent(path) && (l > 0 ==> path[l - 1] == '/')
    ensures '/' !in LastComponent(path)
  {
    if path == [] || path[|path| - 1] == '/' {
    } else {
      LastComponentEnds(path[..|path| - 1]);
    }
  }

  /** The texts between the slashes. */
  function Components(path: Text): (names: seq<Text>)
    ensures names != []
  {
    LastComponentEnds(path);
    var l := |path| - |LastComponent(path)|;
    if l == 0 then [path] else Components(path[..l - 1]) + [path[l..]]
  }

  /** A path is its own only component, or one more behind a slash. */
  lemma SplitLast(path: Text) returns (before: Text, last: Text)
    ensures '/' !in last
    ensures '/' !in path ==> path == last && Components(path) == [path]
    ensures '/' in path ==> path == before + SLASH + last && Components(path) == Components(before) + [last]
    ensures '/' in path ==> |before| < |path|
  {
    LastComponentEnds(path);
    var l := |path| - |LastComponent(path)|;
    before, last := if l > 0 then path[..l - 1] else [], path[l..];
    if l > 0 {
      assert path == path[..l - 1] + SLASH + path[l..];
    } else {
      assert path == path[l..];
    }
  }

  lemma ComponentsOfName(d: Text, name: Text)
    requires '/' !in name
    ensures Components(name) == [name]
    ensures Components(d + SLASH + name) == Components(d) + [name]
  {
    LastComponentOf([], name);
    LastComponentOf(d + SLASH, name);
    assert [] + name == name && (d + SLASH + name)[..|d|] == d;
  }

  lemma {:induction false} ComponentsOfJoin(d: Text, t: Text)
    ensures Components(d + SLASH + t) == Components(d) + Components(t)
    decreases |t|
  {
    if '/' !in t {
      ComponentsOfName(d, t);
    } else {
      var before, last := SplitLast(t);
      ComponentsOfJoin(d, before);
      ComponentsOfName(d + SLASH + before, last);
      assert d + SLASH + t == d + SLASH + before + SLASH + last;
    }
  }

  /** Text without a slash put before a path joins its first component. */
  lemma {:induction false} ComponentsBehind(e: Text, t: Text)
    requires '/' !in e
    ensures Components(e + t) == [e + Components(t)[0]] + Components(t)[1..]
    decreases |t|
  {
    var before, last := SplitLast(t);
    if '/' !in t {
      ComponentsOfName([], e + t);
    } else {
      ComponentsBehind(e, before);
      ComponentsOfName(e + before, last);
      assert e + t == e + before + SLASH + last;
    }
  }

  lemma {:induction false} ComponentsAreNames(path: Text)
    ensures forall n :: n in Components(path) ==> '/' !in n
    ensures |Components(path)| == 1 <==> '/' !in path
    decreases |path|
  {
    var before, last := SplitLast(path);
    if '/' in path {
      ComponentsAreNames(before);
    }
  }

  // ---------------------------------------------------------------- filepath.Clean

  /** The names that do not lead to a file of their own. */
  predicate Dots(name: Text) {
    name == "" || name == "." || name == ".."
  }

  /** One component of a path: the empty and the dot do nothing, two dots go back where that is possible. */
  function Push(rooted: bool, stack: seq<Text>, name: Text): seq<Text> {
    if name == "" || name == "." then stack
    else if name != ".." then stack + [name]
    else if stack != [] && stack[|stack| - 1] != ".." then stack[..|stack| - 1]
    else if rooted then stack
    else stack + [name]
  }

  function Walk(rooted: bool, stack: seq<Text>, names: seq<Text>): seq<Text> {
    if names == [] then stack else Push(rooted, Walk(rooted, stack, names[..|names| - 1]), names[|names| - 1])
  }

  lemma {:induction false} WalkOn(rooted: bool, stack: seq<Text>, a: seq<Text>, b: seq<Text>)
    ensures Walk(rooted, stack, a + b) == Walk(rooted, Walk(rooted, stack, a), b)
  {
    if b == [] {
      assert a + b == a;
    } else {
      WalkOn(rooted, stack, a, b[..|b| - 1]);
      assert (a + b)[..|a + b| - 1] == a + b[..|b| - 1];
    }
  }

  lemma WalkOne(rooted: bool, stack: seq<Text>, name: Text)
    ensures Walk(rooted, stack, [name]) == Push(rooted, stack, name)
  {
    assert [name][..0] == [];
  }

  function Slashed(stack: seq<Text>): Text {
    if stack == [] then []
    else if |stack| == 1 then stack[0]
    else Slashed(stack[..|stack| - 1]) + SLASH + stack[|stack| - 1]
  }

  function Render(rooted: bool, stack: seq<Text>): Text {
    if rooted then SLASH + Slashed(stack)
    else if stack == [] then "."
    else Slashed(stack)
  }

  predicate Rooted(path: Text) {
    path != [] && path[0] == '/'
  }

  function Clean(path: Text): Text {
    if path == [] then "." else Render(Rooted(path), Walk(Rooted(path), [], Components(path)))
  }

  lemma FirstComponent(path: Text)
    ensures path == [] || Rooted(path) ==> Components(path)[0] == []
  {
    ComponentsOfName([], []);
    if Rooted(path) {
      ComponentsOfJoin([], path[1..]);
      assert path == [] + SLASH + path[1..];
    }
  }

  // ---------------------------------------------------------------- clean paths

  /** What Walk leaves on the stack: names between slashes that lead somewhere. */
  ghost predicate Names(stack: seq<Text>) {
    forall n :: n in stack ==> n != "" && n != "." && '/' !in n
  }

  lemma {:induction false} WalkNames(rooted: bool, stack: seq<Text>, names: seq<Text>)
    requires Names(stack) && forall n :: n in names ==> '/' !in n
    ensures Names(Walk(rooted, stack, names))
  {
    if names == [] {
    } else {
      WalkNames(rooted, stack, names[..|names| - 1]);
      assert names[|names| - 1] in names;
    }
  }

  lemma SlashedMore(stack: seq<Text>, name: Text)
    ensures Slashed(stack + [name]) == if stack == [] then name else Slashed(stack) + SLASH + name
  {
    assert (stack + [name])[..|stack|] == stack;
  }

  lemma {:induction false} ComponentsOfSlashed(stack: seq<Text>)
    requires Names(stack) && stack != []
    ensures Components(Slashed(stack)) == stack
  {
    var n := |stack| - 1;
    var before, last := stack[..n], stack[n];
    assert stack == before + [last];
    SlashedMore(before, last);
    assert last in stack && forall m :: m in before ==> m in stack;
    if before == [] {
      ComponentsOfName([], last);
    } else {
      ComponentsOfSlashed(before);
      ComponentsOfName(Slashed(before), last);
    }
  }

  /** What a clean path is made of can be read off it. */
  lemma ComponentsOfRender(rooted: bool, stack: seq<Text>)
    requires Names(stack)
    ensures Components(Render(rooted, stack)) ==
      (if rooted then [""] else []) + if stack != [] then stack else if rooted then [""] else ["."]
  {
    if stack == [] {
      ComponentsOfName([], "");
      ComponentsOfName([], ".");
      assert Slashed(stack) == [] && [] + SLASH + [] == SLASH && SLASH + [] == SLASH;
    } else {
      ComponentsOfSlashed(stack);
      ComponentsOfName([], "");
      ComponentsOfJoin([], Slashed(stack));
      assert [] + SLASH + Slashed(stack) == SLASH + Slashed(stack);
    }
  }

  /** The head says whether the path is rooted, and the rest gives the stack. */
  lemma HeadsAndTails(rooted: bool, stack: seq<Text>)
    requires Names(stack)
    ensures var m :=
        (if rooted then [""] else []) + if stack != [] then stack else if rooted then [""] else ["."];
      && (m[0] == "" <==> rooted)
      && var t := if rooted then m[1..] else m;
        if t == [""] || t == ["."] then stack == [] else stack == t
  {
    assert stack != [] ==> stack[0] in stack;
  }

  lemma RenderIsInjective(r: bool, a: seq<Text>, q: bool, b: seq<Text>)
    requires Names(a) && Names(b)
    ensures Render(r, a) == Render(q, b) <==> r == q && a == b
  {
    ComponentsOfRender(r, a);
    ComponentsOfRender(q, b);
    HeadsAndTails(r, a);
    HeadsAndTails(q, b);
  }

  // ---------------------------------------------------------------- what Clean does

  /** A clean path of one or more names: two dots only at the head, and not behind a root. */
  ghost predicate Tidy(rooted: bool, stack: seq<Text>) {
    && Names(stack)
    && forall i :: 0 <= i < |stack| && stack[i] == ".." ==> !rooted && forall j :: 0 <= j < i ==> stack[j] == ".."
  }

  ghost predicate TidyPath(path: Text) {
    path == "." || path == "/" || Tidy(Rooted(path), Components(path)[if Rooted(path) then 1 else 0..])
  }

  lemma {:induction false} WalkTidies(rooted: bool, names: seq<Text>)
    requires forall n :: n in names ==> '/' !in n
    ensures Tidy(rooted, Walk(rooted, [], names))
  {
    if names == [] {
    } else {
      WalkTidies(rooted, names[..|names| - 1]);
      assert names[|names| - 1] in names;
    }
  }

  lemma {:induction false} WalkOfTidy(rooted: bool, stack: seq<Text>)
    requires Tidy(rooted, stack)
    ensures Walk(rooted, [], stack) == stack
  {
    if stack == [] {
    } else {
      var n := |stack| - 1;
      assert stack == stack[..n] + [stack[n]];
      assert forall m :: m in stack[..n] ==> m in stack;
      WalkOfTidy(rooted, stack[..n]);
      assert stack[n] in stack;
    }
  }

  lemma RootedRender(rooted: bool, stack: seq<Text>)
    requires Names(stack)
    ensures Rooted(Render(rooted, stack)) == rooted
    ensures Render(rooted, stack) != []
  {
    RenderIsSomething(rooted, stack);
    ComponentsOfRender(rooted, stack);
    HeadsAndTails(rooted, stack);
    if Rooted(Render(rooted, stack)) {
      FirstComponent(Render(rooted, stack));
    }
  }

  lemma CleanOfRender(rooted: bool, stack: seq<Text>)
    requires Tidy(rooted, stack)
    ensures Clean(Render(rooted, stack)) == Render(rooted, stack)
    ensures TidyPath(Render(rooted, stack))
  {
    RootedRender(rooted, stack);
    ComponentsOfRender(rooted, stack);
    WalkOfTidy(rooted, stack);
    var names := if stack != [] then stack else if rooted then [""] else ["."];
    WalkOn(rooted, [], if rooted then [""] else [], names);
    WalkOne(rooted, [], "");
    WalkOne(rooted, [], ".");
    assert [""] + stack == ([""] + stack) && ([""] + names)[1..] == names && [] + names == names;
  }

  lemma {:induction false} SlashedComponents(path: Text)
    ensures Slashed(Components(path)) == path
    decreases |path|
  {
    var before, last := SplitLast(path);
    if '/' in path {
      SlashedComponents(before);
      SlashedMore(Components(before), last);
    }
  }

  lemma RootedComponents(path: Text)
    requires Rooted(path)
    ensures path == SLASH + path[1..] && Components(path)[1..] == Components(path[1..])
  {
    assert path == [] + SLASH + path[1..];
    ComponentsOfJoin([], path[1..]);
    ComponentsOfName([], []);
  }

  /** A path reads as its components, behind the root if it has one. */
  lemma RenderOfPath(path: Text)
    requires path != []
    ensures var stack := Components(path)[if Rooted(path) then 1 else 0..];
      path == (if Rooted(path) then SLASH else []) + Slashed(stack)
  {
    if Rooted(path) {
      RootedComponents(path);
      SlashedComponents(path[1..]);
    } else {
      SlashedComponents(path);
      assert [] + path == path && Components(path)[0..] == Components(path);
    }
  }

  lemma TidyStays(path: Text)
    requires TidyPath(path)
    ensures Clean(path) == path
  {
    CleanOfRender(false, []);
    CleanOfRender(true, []);
    ComponentsOfName([], []);
    if path != "." && path != "/" {
      var stack := Components(path)[if Rooted(path) then 1 else 0..];
      assert path == [] ==> "" in stack;
      RenderOfPath(path);
      assert [] + Slashed(stack) == Slashed(stack);
      assert path == Render(Rooted(path), stack);
      CleanOfRender(Rooted(path), stack);
    }
  }

  /** Clean makes every path tidy, and leaves it alone if and only if it is tidy. */
  lemma CleanIff(path: Text)
    ensures TidyPath(Clean(path))
    ensures Clean(path) == path <==> TidyPath(path)
  {
    ComponentsAreNames(path);
    WalkTidies(Rooted(path), Components(path));
    CleanOfRender(Rooted(path), Walk(Rooted(path), [], Components(path)));
    if TidyPath(path) {
      TidyStays(path);
    }
  }

  // ---------------------------------------------------------------- the rules of Clean

  lemma CleanSplit(a: Text, b: Text)
    ensures var (path, rooted) := (a + SLASH + b, Rooted(a + SLASH));
      && path != [] && Rooted(path) == rooted
      && Walk(rooted, [], Components(path)) == Walk(rooted, Walk(rooted, [], Components(a)), Components(b))
  {
    ComponentsOfJoin(a, b);
    WalkOn(Rooted(a + SLASH), [], Components(a), Components(b));
  }

  /** An empty name or a dot between slashes is dropped. */
  lemma CleanDropsDots(a: Text, name: Text, b: Text)
    requires name == "" || name == "."
    ensures Clean(a + SLASH + name + SLASH + b) == Clean(a + SLASH + b)
  {
    CleanSplit(a, b);
    CleanSplit(a + SLASH + name, b);
    ComponentsOfName(a, name);
    WalkOn(Rooted(a + SLASH), [], Components(a), [name]);
    WalkOne(Rooted(a + SLASH), Walk(Rooted(a + SLASH), [], Components(a)), name);
  }

  lemma ThereAndBack(rooted: bool, stack: seq<Text>, d: Text, name: Text)
    requires PlainName(name)
    ensures Components(d + SLASH + name + SLASH + "..") == Components(d) + [name, ".."]
    ensures Walk(rooted, stack, [name, ".."]) == stack
  {
    ComponentsOfName(d, name);
    ComponentsOfName(d + SLASH + name, "..");
    assert Components(d) + [name] + [".."] == Components(d) + [name, ".."];
    assert [name, ".."][..1] == [name] && (stack + [name])[..|stack|] == stack;
    WalkOne(rooted, stack, name);
  }

  /** A plain name that is left again by two dots is dropped with them. */
  lemma CleanGoesBack(a: Text, name: Text, b: Text)
    requires PlainName(name)
    ensures Clean(a + SLASH + name + SLASH + ".." + SLASH + b) == Clean(a + SLASH + b)
  {
    CleanSplit(a, b);
    CleanSplit(a + SLASH + name + SLASH + "..", b);
    ThereAndBack(Rooted(a + SLASH), Walk(Rooted(a + SLASH), [], Components(a)), a, name);
    WalkOn(Rooted(a + SLASH), [], Components(a), [name, ".."]);
  }

  /** A slash at the end goes. */
  lemma CleanDropsSlash(a: Text)
    requires a != []
    ensures Clean(a + SLASH) == Clean(a)
  {
    assert a + SLASH + [] == a + SLASH;
    CleanSplit(a, []);
    ComponentsOfName([], []);
    WalkOne(Rooted(a), Walk(Rooted(a), [], Components(a)), []);
  }

  /** So does a dot at the head; nothing is a dot. */
  lemma CleanDropsHead(a: Text)
    requires !Rooted(a)
    ensures Clean("." + SLASH + a) == Clean(a)
    ensures Clean([]) == "."
  {
    CleanSplit(".", a);
    ComponentsOfName([], ".");
    ComponentsOfName([], []);
    WalkOne(false, [], ".");
    WalkOne(false, [], []);
  }

  /** Two dots behind the root go. */
  lemma CleanDropsParent(a: Text)
    ensures Clean(SLASH + ".." + SLASH + a) == Clean(SLASH + a)
  {
    assert [] + SLASH + ".." == SLASH + ".." && [] + SLASH + a == SLASH + a;
    CleanSplit([], a);
    CleanSplit(SLASH + "..", a);
    ComponentsOfName([], []);
    ComponentsOfName([], "..");
    WalkOn(true, [], [[]], [".."]);
    WalkOne(true, [], []);
    WalkOne(true, [], "..");
  }

  /** The last component of a clean path. */
  function Leaf(rooted: bool, stack: seq<Text>): Text {
    if stack != [] then stack[|stack| - 1] else if rooted then SLASH else "."
  }

  /** filepath.Base: what follows the last slash, once trailing slashes are gone. */
  function Base(path: Text): Text {
    if path == [] then "."
    else if path == SLASH then SLASH
    else if path[|path| - 1] == '/' then Base(path[..|path| - 1])
    else LastComponent(path)
  }

  lemma BaseOfLast(d: Text, last: Text)
    requires last != [] && '/' !in last && (d == [] || d[|d| - 1] == '/')
    ensures Base(d + last) == last
  {
    LastComponentOf(d, last);
    assert last[|last| - 1] in last;
  }

  /** What Base gives: the name behind the last slash, whatever slashes follow; a slash or a dot if there is none. */
  lemma BaseIs(d: Text, name: Text)
    ensures Base("") == "." && Base("/") == "/"
    ensures d != "" ==> Base(d + "/") == Base(d)
    ensures name != [] && '/' !in name ==> Base(name) == name && Base(d + "/" + name) == name
  {
    if name != [] && '/' !in name {
      BaseOfLast([], name);
      BaseOfLast(d + "/", name);
      assert [] + name == name;
    }
    if d != "" {
      assert (d + "/")[..|d|] == d;
    }
  }

  lemma RenderLast(rooted: bool, before: seq<Text>, last: Text) returns (d: Text)
    ensures Render(rooted, before + [last]) == d + last && (d == [] || d[|d| - 1] == '/')
  {
    SlashedMore(before, last);
    if before == [] {
      d := if rooted then SLASH else [];
    } else {
      d := (if rooted then SLASH else []) + Slashed(before) + SLASH;
    }
  }

  lemma BaseOfRender(rooted: bool, stack: seq<Text>)
    requires Names(stack)
    ensures Base(Render(rooted, stack)) == Leaf(rooted, stack)
  {
    if stack == [] {
      BaseOfLast([], ".");
      assert [] + "." == ".";
    } else {
      var n := |stack| - 1;
      assert stack == stack[..n] + [stack[n]] && stack[n] in stack;
      var d := RenderLast(rooted, stack[..n], stack[n]);
      BaseOfLast(d, stack[n]);
    }
  }

  // ---------------------------------------------------------------- filepath.Join

  /** Empty elements before the first other one are dropped. */
  function Join(directory: Text, name: Text): Text {
    if directory != [] then Clean(directory + SLASH + name)
    else if name != [] then Clean(name)
    else []
  }

  /** Where a directory leads. */
  function Stack(directory: Text): seq<Text> {
    if directory == [] then [] else Walk(Rooted(directory), [], Components(directory))
  }

  function JoinRooted(directory: Text, name: Text): bool {
    Rooted(if directory != [] then directory else name)
  }

  /** Where a name leads from a directory. */
  function JoinStack(directory: Text, name: Text): seq<Text> {
    Walk(JoinRooted(directory, name), Stack(directory), Components(name))
  }

  lemma JoinIs(d: Text, name: Text)
    ensures Names(JoinStack(d, name))
    ensures d != [] || name != [] ==> Join(d, name) == Render(JoinRooted(d, name), JoinStack(d, name))
  {
    ComponentsAreNames(d);
    ComponentsAreNames(name);
    WalkNames(Rooted(d), [], Components(d));
    WalkNames(JoinRooted(d, name), Stack(d), Components(name));
    if d != [] {
      ComponentsOfJoin(d, name);
      WalkOn(Rooted(d), [], Components(d), Components(name));
    }
  }

  lemma BaseOfJoin(d: Text, name: Text)
    ensures Base(Join(d, name)) == Leaf(JoinRooted(d, name), JoinStack(d, name))
  {
    JoinIs(d, name);
    BaseOfRender(JoinRooted(d, name), JoinStack(d, name));
    if d == [] && name == [] {
      ComponentsOfName([], []);
      WalkOne(false, [], []);
    }
  }

  /** Two names give one path if and only if they lead to one place, and both or neither is nothing. */
  lemma SameJoinIff(d: Text, a: Text, b: Text)
    ensures Join(d, a) == Join(d, b) <==>
      && JoinRooted(d, a) == JoinRooted(d, b) && JoinStack(d, a) == JoinStack(d, b)
      && (d == [] ==> (a == [] <==> b == []))
  {
    JoinIs(d, a);
    JoinIs(d, b);
    RenderIsInjective(JoinRooted(d, a), JoinStack(d, a), JoinRooted(d, b), JoinStack(d, b));
    RenderIsSomething(JoinRooted(d, a), JoinStack(d, a));
    RenderIsSomething(JoinRooted(d, b), JoinStack(d, b));
  }

  lemma RenderIsSomething(rooted: bool, stack: seq<Text>)
    requires Names(stack)
    ensures Render(rooted, stack) != []
  {
    BaseOfRender(rooted, stack);
    if !rooted && stack != [] {
      ComponentsOfSlashed(stack);
      ComponentsOfName([], []);
      assert stack[0] in stack;
    }
  }

  // ---------------------------------------------------------------- plain names

  /** A name that leads one step down and no further. */
  predicate PlainName(name: Text) {
    !Dots(name) && '/' !in name
  }

  /** From any directory a plain name leads one step down. */
  lemma PlainJoin(d: Text, name: Text)
    requires PlainName(name)
    ensures JoinRooted(d, name) == Rooted(d) && JoinStack(d, name) == Stack(d) + [name]
    ensures Base(Join(d, name)) == name
  {
    ComponentsOfName([], name);
    WalkOne(JoinRooted(d, name), Stack(d), name);
    BaseOfJoin(d, name);
    assert name[0] in name;
  }

  lemma RenderMore(rooted: bool, stack: seq<Text>, name: Text)
    requires Names(stack)
    ensures var d := Render(rooted, stack);
      Render(rooted, stack + [name]) == if d == "." then name else if d == "/" then "/" + name else d + "/" + name
  {
    SlashedMore(stack, name);
    RenderIsInjective(rooted, stack, false, []);
    RenderIsInjective(rooted, stack, true, []);
    if stack == [] {
      assert SLASH + [] == SLASH;
    } else if rooted {
      assert SLASH + (Slashed(stack) + SLASH + name) == SLASH + Slashed(stack) + SLASH + name;
    }
  }

  /** Joined to a clean directory, a plain name stands behind it and a slash. */
  lemma PlainJoinIs(d: Text, name: Text)
    requires PlainName(name) && (d == [] || Clean(d) == d)
    ensures Join(d, name) ==
      if d == [] || d == "." then name else if d == "/" then "/" + name else d + "/" + name
  {
    PlainJoin(d, name);
    JoinIs(d, name);
    ComponentsAreNames(d);
    WalkNames(Rooted(d), [], Components(d));
    RenderMore(Rooted(d), Stack(d), name);
  }

  /** It makes no difference whether the directory is cleaned first. */
  lemma JoinCleans(d: Text, name: Text)
    requires d != []
    ensures Join(Clean(d), name) == Join(d, name)
  {
    ComponentsAreNames(d);
    ComponentsAreNames(Clean(d));
    WalkNames(Rooted(d), [], Components(d));
    WalkNames(Rooted(Clean(d)), [], Components(Clean(d)));
    RootedRender(Rooted(d), Stack(d));
    CleanIff(d);
    CleanIff(Clean(d));
    RenderIsInjective(Rooted(d), Stack(d), Rooted(Clean(d)), Stack(Clean(d)));
    JoinIs(d, name);
    JoinIs(Clean(d), name);
  }

  lemma PushDots(rooted: bool, stack: seq<Text>, name: Text, dots: Text)
    requires !Dots(name) && Dots(dots)
    ensures Push(rooted, stack, dots) != stack + [name]
  {
    if |Push(rooted, stack, dots)| > |stack| {
      assert (stack + [dots])[|stack|] != (stack + [name])[|stack|];
    }
  }

  /** A plain name never leads to the directory or to its parent. */
  lemma PlainLeavesDirectory(d: Text, name: Text, dots: Text)
    requires PlainName(name) && Dots(dots)
    ensures Join(d, name) != Join(d, dots)
  {
    PlainJoin(d, name);
    SameJoinIff(d, name, dots);
    ComponentsOfName([], dots);
    WalkOne(JoinRooted(d, dots), Stack(d), dots);
    PushDots(JoinRooted(d, dots), Stack(d), name, dots);
  }

  // ---------------------------------------------------------------- names that stay below

  /** Where names lead, seen from where they start; None when they lead above that. */
  function Below(names: seq<Text>): Option<seq<Text>> {
    if names == [] then Some([])
    else
      var before, name := Below(names[..|names| - 1]), names[|names| - 1];
      if before == None || name == "" || name == "." then before
      else if name != ".." then Some(before.value + [name])
      else if before.value == [] then None
      else Some(before.value[..|before.value| - 1])
  }

  lemma PushBelow(rooted: bool, stack: seq<Text>, below: seq<Text>, name: Text)
    requires (forall n :: n in below ==> !Dots(n)) && (name == ".." ==> below != [])
    ensures Push(rooted, stack + below, name) == stack +
      if name == "" || name == "." then below
      else if name != ".." then below + [name]
      else below[..|below| - 1]
  {
    if name == ".." {
      assert below[|below| - 1] in below && (stack + below)[..|stack + below| - 1] == stack + below[..|below| - 1];
    }
  }

  lemma {:induction false} WalkBelow(rooted: bool, stack: seq<Text>, names: seq<Text>)
    requires Below(names).Some?
    ensures Walk(rooted, stack, names) == stack + Below(names).value
    ensures forall n :: n in Below(names).value ==> !Dots(n)
  {
    if names == [] {
      assert stack + [] == stack;
    } else {
      var n := |names| - 1;
      WalkBelow(rooted, stack, names[..n]);
      PushBelow(rooted, stack, Below(names[..n]).value, names[n]);
    }
  }

  /** Names that lead above their start forget by which name it was reached. */
  lemma {:induction false} WalkAbove(rooted: bool, stack: seq<Text>, a: Text, b: Text, names: seq<Text>)
    requires Below(names) == None && !Dots(a) && !Dots(b)
    ensures Walk(rooted, stack + [a], names) == Walk(rooted, stack + [b], names)
  {
    var n := |names| - 1;
    if Below(names[..n]) == None {
      WalkAbove(rooted, stack, a, b, names[..n]);
    } else {
      WalkBelow(rooted, stack + [a], names[..n]);
      WalkBelow(rooted, stack + [b], names[..n]);
      assert (stack + [a])[..|stack|] == (stack + [b])[..|stack|];
    }
  }
}
