/**
 realpath, dirname and basename. The reference for realpath is a stack of components: empty
 components and "." are skipped, ".." pops.
*/
module LibGen {

  const PATH_MAX: nat := 4096

  // ---- the reference ----------------------------------------------------------------------

  // The components of a path, empty ones included.
  function Split(s: string): (r: seq<string>)
    ensures |r| > 0 && '/' !in r[0]
  {
    if s == "" then [""]
    else if s[0] == '/' then [""] + Split(s[1..])
    else var r := Split(s[1..]); [[s[0]] + r[0]] + r[1..]
  }

  function Push(stack: seq<string>, c: string): seq<string> {
    if c == "" || c == "." then stack
    else if c == ".." then if stack == [] then [] else stack[..|stack| - 1]
    else stack + [c]
  }

  function Resolve(stack: seq<string>, todo: seq<string>): seq<string>
    decreases |todo|
  {
    if todo == [] then stack else Resolve(Push(stack, todo[0]), todo[1..])
  }

  function Flat(stack: seq<string>): string {
    if stack == [] then "" else Flat(stack[..|stack| - 1]) + "/" + stack[|stack| - 1]
  }

  lemma FlatSnoc(stack: seq<string>, c: string)
    ensures Flat(stack + [c]) == Flat(stack) + "/" + c
  {
    assert (stack + [c])[..|stack|] == stack;
  }

  function Joined(stack: seq<string>): string {
    if stack == [] then "/" else Flat(stack)
  }

  // What an absolute path names, lexically.
  function Canonical(path: string): string
    requires path != "" && path[0] == '/'
  {
    Joined(Resolve([], Split(path[1..])))
  }

  // ---- facts about the reference ----------------------------------------------------------

  predicate Proper(c: string) {
    c != "" && c != "." && c != ".." && '/' !in c
  }

  predicate AllProper(stack: seq<string>) {
    forall c :: c in stack ==> Proper(c)
  }

  lemma {:induction false} SplitComponents(s: string)
    ensures forall c :: c in Split(s) ==> '/' !in c
  {
    if s != "" {
      SplitComponents(s[1..]);
    }
  }

  lemma {:induction false} ResolveProper(stack: seq<string>, todo: seq<string>)
    requires AllProper(stack) && forall c :: c in todo ==> '/' !in c
    ensures AllProper(Resolve(stack, todo))
    decreases |todo|
  {
    if todo != [] {
      ResolveProper(Push(stack, todo[0]), todo[1..]);
    }
  }

  // Components that are proper are pushed as they are.
  lemma {:induction false} ResolveOwn(stack: seq<string>, todo: seq<string>)
    requires AllProper(todo)
    ensures Resolve(stack, todo) == stack + todo
    decreases |todo|
  {
    if todo != [] {
      assert Proper(todo[0]);
      ResolveOwn(stack + [todo[0]], todo[1..]);
      assert stack + todo == stack + [todo[0]] + todo[1..];
    }
  }

  lemma {:induction false} ResolveConcat(stack: seq<string>, a: seq<string>, b: seq<string>)
    ensures Resolve(stack, a + b) == Resolve(Resolve(stack, a), b)
    decreases |a|
  {
    if a == [] {
      assert a + b == b;
    } else {
      assert (a + b)[1..] == a[1..] + b;
      ResolveConcat(Push(stack, a[0]), a[1..], b);
    }
  }

  // A separator splits.
  lemma {:induction false} SplitAt(c: string, rest: string)
    requires '/' !in c
    ensures Split(c + "/" + rest) == [c] + Split(rest)
  {
    var s := c + "/" + rest;
    if c == "" {
      assert s[1..] == rest;
    } else {
      assert s[1..] == c[1..] + "/" + rest && s[0] == c[0];
      SplitAt(c[1..], rest);
      assert [c[0]] + c[1..] == c;
    }
  }

  lemma {:induction false} SplitWhole(c: string)
    requires '/' !in c
    ensures Split(c) == [c]
  {
    if c != "" {
      SplitWhole(c[1..]);
      assert [c[0]] + c[1..] == c;
    }
  }

  // The first component is followed by a separator or by nothing.
  lemma {:induction false} SplitHead(s: string)
    ensures var c := Split(s)[0];
            |c| <= |s| && s[..|c|] == c && (|c| < |s| ==> s[|c|] == '/' && Split(s)[1..] == Split(s[|c| + 1..]))
  {
    if s != "" && s[0] != '/' {
      SplitHead(s[1..]);
      var c := Split(s)[0];
      assert c[1..] == Split(s[1..])[0];
      if |c| < |s| {
        assert s[1..][|c|..] == s[|c| + 1..];
      }
    }
  }

  lemma {:induction false} SplitSlash(s: string)
    ensures Split(s + "/") == Split(s) + [""]
  {
    if s == "" {
      assert Split("/") == [""] + Split("");
    } else {
      assert (s + "/")[1..] == s[1..] + "/";
      SplitSlash(s[1..]);
    }
  }

  // A closing slash changes nothing.
  lemma ClosingSlash(s: string)
    ensures Resolve([], Split(s + "/")) == Resolve([], Split(s))
  {
    SplitSlash(s);
    ResolveConcat([], Split(s), [""]);
    var stack := Resolve([], Split(s));
    assert Resolve(stack, [""]) == Resolve(Push(stack, ""), [""][1..]);
  }

  lemma {:induction false} SplitJoin(s: string, last: string)
    requires '/' !in last
    ensures Split(s + "/" + last) == Split(s) + [last]
  {
    var whole := s + "/" + last;
    if s == "" {
      assert whole[1..] == last;
      SplitWhole(last);
    } else {
      assert whole[1..] == s[1..] + "/" + last;
      SplitJoin(s[1..], last);
    }
  }

  lemma {:induction false} SplitFlat(stack: seq<string>, last: string)
    requires (forall c :: c in stack ==> '/' !in c) && '/' !in last
    ensures Flat(stack + [last]) != "" && Flat(stack + [last])[0] == '/'
    ensures Split(Flat(stack + [last])[1..]) == stack + [last]
  {
    var whole := stack + [last];
    assert whole[..|whole| - 1] == stack;
    assert Flat(whole) == Flat(stack) + "/" + last;
    if stack == [] {
      assert Flat(whole)[1..] == last;
      SplitWhole(last);
    } else {
      var init, prev := stack[..|stack| - 1], stack[|stack| - 1];
      assert stack == init + [prev];
      SplitFlat(init, prev);
      var text := Flat(stack)[1..];
      assert Flat(whole)[1..] == text + "/" + last;
      SplitJoin(text, last);
    }
  }

  // The components of a joined stack are the stack.
  lemma JoinedComponents(stack: seq<string>)
    requires AllProper(stack)
    ensures Joined(stack) != "" && Joined(stack)[0] == '/'
    ensures stack != [] ==> Split(Joined(stack)[1..]) == stack
    ensures Resolve([], Split(Joined(stack)[1..])) == stack
  {
    if stack == [] {
      assert Resolve([], [""]) == Resolve(Push([], ""), [""][1..]);
    } else {
      assert stack == stack[..|stack| - 1] + [stack[|stack| - 1]];
      assert forall c :: c in stack ==> Proper(c) && '/' !in c;
      SplitFlat(stack[..|stack| - 1], stack[|stack| - 1]);
      ResolveOwn([], stack);
    }
  }

  // A canonical path has no empty, "." or ".." component, and is its own canonical path.
  lemma CanonicalIsNormal(path: string)
    requires path != "" && path[0] == '/'
    ensures var r := Canonical(path);
            && r != "" && r[0] == '/' && Canonical(r) == r
            && (r == "/" || AllProper(Split(r[1..])))
  {
    var todo := Split(path[1..]);
    SplitComponents(path[1..]);
    ResolveProper([], todo);
    JoinedComponents(Resolve([], todo));
  }

  // ---- laws of canonical paths ------------------------------------------------------------

  lemma JoinFirst(x: char, r: seq<string>, u: seq<string>)
    requires r != []
    ensures ([[x] + r[0]] + r[1..]) + u == [[x] + (r + u)[0]] + (r + u)[1..]
    ensures ([""] + r) + u == [""] + (r + u)
  {
  }

  lemma {:induction false} SplitConcat(s: string, t: string)
    ensures Split(s + "/" + t) == Split(s) + Split(t)
  {
    var whole := s + "/" + t;
    if s == "" {
      assert whole[1..] == t && whole[0] == '/';
    } else {
      assert whole[1..] == s[1..] + "/" + t && whole[0] == s[0];
      SplitConcat(s[1..], t);
      JoinFirst(s[0], Split(s[1..]), Split(t));
    }
  }

  lemma ResolveOne(stack: seq<string>, c: string)
    ensures Resolve(stack, [c]) == Push(stack, c)
  {
    assert [c][1..] == [];
  }

  // Where a path leads from a directory depends only on what the directory is.
  lemma Below(path: string, rest: string)
    requires path != "" && path[0] == '/'
    ensures var stack := Resolve([], Split(path[1..]));
            && (path + "/" + rest)[0] == '/'
            && Canonical(path + "/" + rest) == Joined(Resolve(stack, Split(rest)))
            && Canonical(path) == Joined(stack) && AllProper(stack)
  {
    assert (path + "/" + rest)[1..] == path[1..] + "/" + rest;
    SplitConcat(path[1..], rest);
    ResolveConcat([], Split(path[1..]), Split(rest));
    SplitComponents(path[1..]);
    ResolveProper([], Split(path[1..]));
  }

  // A directory may be replaced by its canonical path.
  lemma CanonicalPrefix(path: string, rest: string)
    requires path != "" && path[0] == '/'
    ensures var r := Canonical(path);
            r != "" && r[0] == '/' && Canonical(path + "/" + rest) == Canonical(r + "/" + rest)
  {
    hide Split, Resolve;
    Below(path, rest);
    CanonicalIsNormal(path);
    Below(Canonical(path), rest);
    JoinedComponents(Resolve([], Split(path[1..])));
  }

  lemma NotRoot(stack: seq<string>)
    requires AllProper(stack)
    ensures stack == [] ==> Flat(stack) == "" && Joined(stack) == "/"
    ensures stack != [] ==> Joined(stack) != "/" && Joined(stack) == Flat(stack)
  {
    if stack != [] {
      assert Proper(stack[|stack| - 1]);
    }
  }

  // A component that is no dot or dot-dot is added to the path.
  lemma CanonicalInto(path: string, c: string)
    requires path != "" && path[0] == '/' && Proper(c)
    ensures Canonical(path + "/" + c) == (if Canonical(path) == "/" then "" else Canonical(path)) + "/" + c
  {
    hide Split, Resolve, Canonical;
    Below(path, c);
    SplitWhole(c);
    var stack := Resolve([], Split(path[1..]));
    ResolveOne(stack, c);
    FlatSnoc(stack, c);
    NotRoot(stack);
  }

  lemma InAndOut(stack: seq<string>, c: string)
    requires Proper(c)
    ensures Resolve(stack, [c] + [".."]) == stack
  {
    var todo := [c] + [".."];
    assert todo[1..] == [".."];
    ResolveOne(stack + [c], "..");
  }

  // Dot-dot undoes that.
  lemma CanonicalOutOf(path: string, c: string)
    requires path != "" && path[0] == '/' && Proper(c)
    ensures Canonical(path + "/" + c + "/..") == Canonical(path)
  {
    hide Split, Resolve, Canonical;
    Below(path, c + "/" + "..");
    SplitConcat(c, "..");
    SplitWhole(c);
    SplitWhole("..");
    var stack := Resolve([], Split(path[1..]));
    InAndOut(stack, c);
    assert path + "/" + c + "/.." == path + "/" + (c + "/" + "..");
  }

  // Above the root there is the root, and the root has an empty stack.
  lemma CanonicalRoot(path: string)
    requires path != "" && path[0] == '/' && Canonical(path) == "/"
    ensures Canonical("/") == "/" && Canonical(path + "/" + "..") == "/"
  {
    Below(path, "..");
    SplitWhole("..");
    var stack := Resolve([], Split(path[1..]));
    NotRoot(stack);
    assert stack == [];
    ResolveOne([], "..");
    ResolveOne([], "");
    assert "/"[1..] == "" && Split("") == [""];
  }

  // A dot and an empty component stand for nothing.
  lemma CanonicalSame(path: string, c: string)
    requires path != "" && path[0] == '/' && (c == "." || c == "")
    ensures Canonical(path + "/" + c) == Canonical(path)
  {
    hide Split, Resolve, Canonical;
    Below(path, c);
    SplitWhole(c);
    var stack := Resolve([], Split(path[1..]));
    ResolveOne(stack, c);
  }

  lemma {:induction false} FlatSnocLength(stack: seq<string>, c: string)
    ensures |Flat(Push(stack, c))| <= |Flat(stack)| + 1 + |c|
  {
    if c != "" && c != "." && c != ".." {
      FlatSnoc(stack, c);
    }
  }

  // The number of characters of the components, each with a separator.
  function Total(todo: seq<string>): nat {
    if todo == [] then 0 else 1 + |todo[0]| + Total(todo[1..])
  }

  lemma {:induction false} ResolveShorter(stack: seq<string>, todo: seq<string>)
    ensures |Flat(Resolve(stack, todo))| <= |Flat(stack)| + Total(todo)
    decreases |todo|
  {
    if todo != [] {
      ResolveShorter(Push(stack, todo[0]), todo[1..]);
      FlatSnocLength(stack, todo[0]);
    }
  }

  lemma {:induction false} SplitTotal(s: string)
    ensures Total(Split(s)) == |s| + 1
  {
    if s != "" {
      SplitTotal(s[1..]);
      if s[0] == '/' {
        assert ([""] + Split(s[1..]))[1..] == Split(s[1..]);
      } else {
        var r := Split(s[1..]);
        assert ([[s[0]] + r[0]] + r[1..])[1..] == r[1..];
      }
    } else {
      assert Total([""][1..]) == 0;
    }
  }

  // Resolving never makes a path longer.
  lemma CanonicalNotLonger(path: string)
    requires path != "" && path[0] == '/'
    ensures |Canonical(path)| <= |path|
  {
    ResolveShorter([], Split(path[1..]));
    SplitTotal(path[1..]);
    assert Flat([]) == "";
  }

  // No null character, as in every C string.
  predicate Clean(s: string) {
    '\0' !in s
  }

  lemma {:induction false} SplitClean(s: string)
    requires Clean(s)
    ensures forall c :: c in Split(s) ==> Clean(c)
  {
    if s != "" {
      assert s[0] in s && forall x :: x in s[1..] ==> x in s;
      SplitClean(s[1..]);
      var r := Split(s[1..]);
      assert r[0] in r && Clean([s[0]] + r[0]);
      assert forall c :: c in r[1..] ==> c in r;
    }
  }

  lemma {:induction false} ResolveClean(stack: seq<string>, todo: seq<string>)
    requires (forall c :: c in stack ==> Clean(c)) && forall c :: c in todo ==> Clean(c)
    ensures forall c :: c in Resolve(stack, todo) ==> Clean(c)
    decreases |todo|
  {
    if todo != [] {
      ResolveClean(Push(stack, todo[0]), todo[1..]);
    }
  }

  lemma {:induction false} FlatClean(stack: seq<string>)
    requires forall c :: c in stack ==> Clean(c)
    ensures Clean(Flat(stack))
  {
    if stack != [] {
      FlatClean(stack[..|stack| - 1]);
      assert Clean(stack[|stack| - 1]);
    }
  }

  lemma CanonicalClean(path: string)
    requires path != "" && path[0] == '/' && Clean(path)
    ensures Clean(Canonical(path))
  {
    assert Clean(path[1..]);
    SplitClean(path[1..]);
    ResolveClean([], Split(path[1..]));
    FlatClean(Resolve([], Split(path[1..])));
  }

  // ---- the scan of realpath ---------------------------------------------------------------

  // strncmp(t, s + i, |t|) == 0
  predicate StartsAt(s: string, i: nat, t: string) {
    i + |t| <= |s| && s[i..i + |t|] == t
  }

  // The scan is at a separator: `text` holds the stack, and the rest of the path leads to `target`.
  ghost predicate AtSlash(abs: string, i: nat, text: string, stack: seq<string>, target: seq<string>) {
    && i < |abs| && abs[i] == '/' && abs[|abs| - 1] == '/'
    && text == Flat(stack) && AllProper(stack) && Resolve(stack, Split(abs[i + 1..])) == target
  }

  // The scan is inside a component, of which `part` has been copied, or at the end of the path.
  ghost predicate Inside(abs: string, i: nat, text: string, stack: seq<string>, part: string, target: seq<string>) {
    && i <= |abs| && abs != "" && abs[|abs| - 1] == '/'
    && text == Flat(stack) + "/" + part && AllProper(stack)
    && if i == |abs| then part == "" && stack == target
       else
         var r := Split(abs[i..]);
         Proper(part + r[0]) && Resolve(stack + [part + r[0]], r[1..]) == target
  }

  lemma Arrive(abs: string, i: nat, text: string, stack: seq<string>, part: string, target: seq<string>)
    requires Inside(abs, i, text, stack, part, target) && i < |abs| && abs[i] == '/'
    ensures AtSlash(abs, i, text, stack + [part], target)
  {
    var rest := abs[i..];
    assert rest[1..] == abs[i + 1..];
    assert Split(rest) == [""] + Split(rest[1..]);
    assert part + "" == part;
    assert (stack + [part])[..|stack|] == stack;
  }

  lemma Advance(abs: string, i: nat, text: string, stack: seq<string>, part: string, target: seq<string>)
    requires Inside(abs, i, text, stack, part, target) && i < |abs| && abs[i] != '/'
    ensures Inside(abs, i + 1, text + [abs[i]], stack, part + [abs[i]], target)
  {
    var rest := abs[i..];
    assert rest[1..] == abs[i + 1..];
    var r := Split(rest[1..]);
    assert Split(rest) == [[abs[i]] + r[0]] + r[1..];
    assert part + ([abs[i]] + r[0]) == (part + [abs[i]]) + r[0];
    assert text + [abs[i]] == Flat(stack) + "/" + (part + [abs[i]]);
  }

  lemma ResolveCons(stack: seq<string>, c: string, rest: seq<string>)
    ensures Resolve(stack, [c] + rest) == Resolve(Push(stack, c), rest)
  {
    assert ([c] + rest)[1..] == rest;
  }

  lemma Unbracketed(abs: string, i: nat, c: string)
    requires StartsAt(abs, i, "/" + c + "/")
    ensures i + |c| + 1 < |abs| && abs[i + |c| + 1] == '/'
    ensures abs[i + 1..] == c + "/" + abs[i + |c| + 2..]
  {
    var j := i + |c| + 1;
    var window := abs[i..j + 1];
    assert window == "/" + c + "/";
    assert abs[j] == window[|c| + 1] == '/';
    assert abs[i + 1..] == window[1..] + abs[j + 1..];
    assert window[1..] == c + "/";
  }

  // "/c/" at a separator: the component c is pushed.
  lemma Step(abs: string, i: nat, text: string, stack: seq<string>, target: seq<string>, c: string, text': string)
    requires AtSlash(abs, i, text, stack, target) && '/' !in c && StartsAt(abs, i, "/" + c + "/")
    requires text' == Flat(Push(stack, c)) && AllProper(Push(stack, c))
    ensures AtSlash(abs, i + |c| + 1, text', Push(stack, c), target)
  {
    hide Split, Resolve, Flat, Push, AllProper, StartsAt;
    var j := i + |c| + 1;
    Unbracketed(abs, i, c);
    SplitAt(c, abs[j + 1..]);
    ResolveCons(stack, c, Split(abs[j + 1..]));
  }

  lemma SkipEmpty(abs: string, i: nat, text: string, stack: seq<string>, target: seq<string>)
    requires AtSlash(abs, i, text, stack, target) && StartsAt(abs, i, "//")
    ensures AtSlash(abs, i + 1, text, stack, target)
  {
    assert "/" + "" + "/" == "//";
    Step(abs, i, text, stack, target, "", text);
  }

  lemma SkipDot(abs: string, i: nat, text: string, stack: seq<string>, target: seq<string>)
    requires AtSlash(abs, i, text, stack, target) && StartsAt(abs, i, "/./")
    ensures AtSlash(abs, i + 2, text, stack, target)
  {
    assert "/" + "." + "/" == "/./";
    Step(abs, i, text, stack, target, ".", text);
  }

  lemma Up(abs: string, i: nat, text: string, stack: seq<string>, target: seq<string>, text': string)
    requires AtSlash(abs, i, text, stack, target) && StartsAt(abs, i, "/../")
    requires text' == Flat(Push(stack, "..")) && AllProper(Push(stack, ".."))
    ensures AtSlash(abs, i + 3, text', Push(stack, ".."), target)
  {
    assert "/" + ".." + "/" == "/../";
    Step(abs, i, text, stack, target, "..", text');
  }

  lemma SlashFacts(abs: string, i: nat, text: string, stack: seq<string>, target: seq<string>)
    requires AtSlash(abs, i, text, stack, target)
    ensures i < |abs| && abs[i] == '/' && text == Flat(stack) && AllProper(stack)
  {
  }

  lemma Finished(abs: string, text: string, stack: seq<string>, part: string, target: seq<string>)
    requires Inside(abs, |abs|, text, stack, part, target)
    ensures text == Flat(target) + "/"
  {
  }

  lemma StartsWithSlash(abs: string, i: nat)
    ensures StartsAt(abs, i, "//") || StartsAt(abs, i, "/../") || StartsAt(abs, i, "/./") ==> i < |abs| && abs[i] == '/'
  {
    if StartsAt(abs, i, "//") {
      assert abs[i] == abs[i..i + 2][0];
    }
    if StartsAt(abs, i, "/../") {
      assert abs[i] == abs[i..i + 4][0];
    }
    if StartsAt(abs, i, "/./") {
      assert abs[i] == abs[i..i + 3][0];
    }
  }

  lemma Bracketed(abs: string, i: nat, c: string)
    requires i + |c| + 1 < |abs| && abs[i] == '/' && abs[i + 1..][..|c|] == c && abs[i + 1..][|c|] == '/'
    ensures StartsAt(abs, i, "/" + c + "/")
  {
    assert abs[i..i + |c| + 2] == [abs[i]] + abs[i + 1..][..|c|] + [abs[i + 1..][|c|]];
  }

  // The first component of a text that ends with a separator is not all of it.
  lemma HeadShorter(rest: string)
    requires rest != "" && rest[|rest| - 1] == '/'
    ensures |Split(rest)[0]| < |rest|
  {
    SplitHead(rest);
    assert rest[..|rest|] == rest && '/' in rest;
  }

  lemma ResolveNothing(stack: seq<string>)
    ensures Resolve(stack, []) == stack
  {
  }

  lemma NotSpecial(abs: string, i: nat, c: string)
    requires StartsAt(abs, i, "/" + c + "/")
    requires !StartsAt(abs, i, "//") && !StartsAt(abs, i, "/../") && !StartsAt(abs, i, "/./")
    ensures c != "" && c != "." && c != ".."
  {
    assert "/" + "" + "/" == "//" && "/" + "." + "/" == "/./" && "/" + ".." + "/" == "/../";
  }

  // A separator that starts a proper component, or the last one, is copied.
  lemma Enter(abs: string, i: nat, text: string, stack: seq<string>, target: seq<string>)
    requires AtSlash(abs, i, text, stack, target)
    requires !StartsAt(abs, i, "//") && !StartsAt(abs, i, "/../") && !StartsAt(abs, i, "/./")
    ensures Inside(abs, i + 1, text + "/", stack, "", target)
  {
    hide Resolve, Flat, StartsAt;
    var rest := abs[i + 1..];
    var r := Split(rest);
    SplitHead(rest);
    assert text + "/" == Flat(stack) + "/" + "";
    if rest == "" {
      ResolveCons(stack, "", []);
      ResolveNothing(stack);
      assert [""] + [] == r;
    } else {
      hide Split;
      HeadShorter(rest);
      Bracketed(abs, i, r[0]);
      NotSpecial(abs, i, r[0]);
      ResolveCons(stack, r[0], r[1..]);
      assert [r[0]] + r[1..] == r && "" + r[0] == r[0];
    }
  }

  // Walk back to the separator before the last component.
  method Back(resolved: array<char>, pathidx: nat, ghost stack: seq<string>, ghost exact: bool) returns (n: nat)
    requires pathidx <= resolved.Length
    requires exact ==> AllProper(stack) && resolved[..pathidx] == Flat(stack)
    ensures n <= pathidx
    ensures exact ==> resolved[..n] == Flat(Push(stack, "..")) && AllProper(Push(stack, ".."))
  {
    n := pathidx;
    if n != 0 {
      n := n - 1;
    }
    ghost var floor := if exact && stack != [] then |Flat(stack[..|stack| - 1])| else 0;
    ghost var last := if exact && stack != [] then stack[|stack| - 1] else "";
    if exact && stack != [] {
      assert Proper(last);
      assert Flat(stack) == Flat(stack[..|stack| - 1]) + "/" + last;
    }
    while n != 0 && resolved[n] != '/'
      invariant n <= pathidx && (pathidx > 0 ==> n < pathidx)
      invariant floor <= n
    {
      n := n - 1;
    }
  }

  // strncat(s, t, PATH_MAX - strlen(s) - 1)
  function Append(s: string, t: string): string {
    if |s| + |t| < PATH_MAX then s + t
    else if |s| < PATH_MAX then s + t[..PATH_MAX - 1 - |s|] else s
  }

  // The path that is resolved: `path` itself or `path` below the working directory.
  function Absolute(path: string, cwd: string): string {
    if path != "" && path[0] == '/' then path else cwd + "/" + path
  }

  // A C string in a buffer.
  ghost predicate HoldsString(a: array<char>, s: string)
    reads a
  {
    |s| < a.Length && a[..|s|] == s && a[|s|] == '\0'
  }

  // Remove the last separator, unless it is the only one.
  method Close(resolved: array<char>, pathidx: nat, ghost target: seq<string>, ghost exact: bool)
    requires pathidx < resolved.Length && 1 < resolved.Length
    requires exact ==> resolved[..pathidx] == Flat(target) + "/"
    modifies resolved
    ensures exact ==> HoldsString(resolved, Joined(target))
  {
    ghost var text := resolved[..pathidx];
    if pathidx > 1 {
      resolved[pathidx - 1] := '\0';
      assert resolved[..pathidx - 1] == text[..pathidx - 1];
    } else {
      resolved[1] := '\0';
      assert resolved[..pathidx] == text;
    }
  }

  lemma Within(abs: string, i: nat)
    ensures StartsAt(abs, i, "/../") ==> i + 4 <= |abs|
    ensures StartsAt(abs, i, "/./") ==> i + 3 <= |abs|
  {
  }

  lemma Start(path: string, abs: string)
    requires path != "" && path[0] == '/' && abs == path + "/"
    ensures AtSlash(abs, 0, "", [], Resolve([], Split(path[1..])))
  {
    ClosingSlash(path[1..]);
    assert abs[1..] == path[1..] + "/";
  }

  // The main loop.
  method Scan(abspath: string, resolved: array<char>, ghost target: seq<string>, ghost exact: bool)
    returns (pathidx: nat)
    requires |abspath| < resolved.Length
    requires exact ==> AtSlash(abspath, 0, "", [], target)
    modifies resolved
    ensures pathidx <= |abspath|
    ensures exact ==> resolved[..pathidx] == Flat(target) + "/"
  {
    hide AtSlash, Inside, Flat, AllProper, StartsAt, Push;
    var absidx := 0;
    pathidx := 0;
    ghost var stack: seq<string>, part, inside := [], "", false;
    assert resolved[..0] == "";
    while absidx < |abspath|
      invariant pathidx <= absidx <= |abspath|
      invariant exact && !inside ==> AtSlash(abspath, absidx, resolved[..pathidx], stack, target)
      invariant exact && inside ==> Inside(abspath, absidx, resolved[..pathidx], stack, part, target)
    {
      ghost var text := resolved[..pathidx];
      StartsWithSlash(abspath, absidx);
      if exact && inside && abspath[absidx] == '/' {
        Arrive(abspath, absidx, text, stack, part, target);
        stack, part, inside := stack + [part], "", false;
      }
      if exact && !inside {
        SlashFacts(abspath, absidx, text, stack, target);
      }
      if StartsAt(abspath, absidx, "//") {
        if exact { SkipEmpty(abspath, absidx, text, stack, target); }
        absidx := absidx + 1;
      } else if StartsAt(abspath, absidx, "/../") {
        Within(abspath, absidx);
        pathidx := Back(resolved, pathidx, stack, exact);
        if exact {
          Up(abspath, absidx, text, stack, target, resolved[..pathidx]);
          stack := Push(stack, "..");
        }
        absidx := absidx + 3;
      } else if StartsAt(abspath, absidx, "/./") {
        Within(abspath, absidx);
        if exact { SkipDot(abspath, absidx, text, stack, target); }
        absidx := absidx + 2;
      } else {
        if exact && inside {
          Advance(abspath, absidx, text, stack, part, target);
          part := part + [abspath[absidx]];
        } else if exact {
          Enter(abspath, absidx, text, stack, target);
          assert [abspath[absidx]] == "/";
          part, inside := "", true;
        }
        resolved[pathidx] := abspath[absidx];
        assert resolved[..pathidx + 1] == text + [abspath[absidx]];
        pathidx, absidx := pathidx + 1, absidx + 1;
      }
    }
    if exact && !inside {
      SlashFacts(abspath, absidx, resolved[..pathidx], stack, target);
    } else if exact {
      Finished(abspath, resolved[..pathidx], stack, part, target);
    }
  }

  method RealPath(path: string, cwd: string, resolved: array<char>)
    requires cwd != "" && cwd[0] == '/' && |cwd| < PATH_MAX && resolved.Length == PATH_MAX
    modifies resolved
    ensures |Absolute(path, cwd)| <= PATH_MAX - 2 ==> HoldsString(resolved, Canonical(Absolute(path, cwd)))
    ensures path != "" && path[0] == '/' && |path| <= 4094 ==> HoldsString(resolved, Canonical(path))
    ensures (path == "" || path[0] != '/') && |cwd| + 1 + |path| <= 4094 ==>
              HoldsString(resolved, Canonical(cwd + "/" + path))
  {
    hide Split, Resolve, Flat;
    var abspath;
    if path == "" || path[0] != '/' {
      abspath := Append(cwd, "/");
      abspath := Append(abspath, path);
    } else {
      abspath := if |path| < PATH_MAX then path else path[..PATH_MAX - 1];
    }
    abspath := Append(abspath, "/");

    ghost var exact := |Absolute(path, cwd)| <= PATH_MAX - 2;
    ghost var target := Resolve([], Split(Absolute(path, cwd)[1..]));
    if exact {
      assert abspath == Absolute(path, cwd) + "/";
      Start(Absolute(path, cwd), abspath);
    }
    var pathidx := Scan(abspath, resolved, target, exact);
    Close(resolved, pathidx, target, exact);
  }

  // The C string in a buffer, up to its null character.
  method ReadString(a: array<char>, ghost s: string) returns (text: string)
    requires HoldsString(a, s) && Clean(s)
    ensures text == s
  {
    var n := 0;
    while a[n] != '\0'
      invariant n <= |s|
      decreases |s| - n
    {
      assert a[..|s|][n] == s[n] || n == |s|;
      n := n + 1;
    }
    text := a[..n];
  }

  // realpath of what realpath returned, with any working directory, returns it again.
  method RealPathTwice(path: string, cwd: string, other: string, resolved: array<char>, again: array<char>)
    requires cwd != "" && cwd[0] == '/' && |cwd| < PATH_MAX && resolved.Length == PATH_MAX
    requires other != "" && other[0] == '/' && |other| < PATH_MAX && again.Length == PATH_MAX && again != resolved
    requires |Absolute(path, cwd)| <= PATH_MAX - 2 && Clean(path) && Clean(cwd)
    modifies resolved, again
    ensures HoldsString(resolved, Canonical(Absolute(path, cwd))) && HoldsString(again, Canonical(Absolute(path, cwd)))
  {
    hide Split, Resolve, Flat, Canonical;
    ghost var full := Absolute(path, cwd);
    CanonicalIsNormal(full);
    CanonicalNotLonger(full);
    CanonicalClean(full);
    RealPath(path, cwd, resolved);
    var text := ReadString(resolved, Canonical(full));
    RealPath(text, other, again);
  }

  // ---- dirname and basename ---------------------------------------------------------------

  // strrchr(s, '/') - s, or -1
  function LastSlash(s: string): (k: int)
    ensures -1 <= k < |s| && (k >= 0 ==> s[k] == '/') && forall j :: k < j < |s| ==> s[j] != '/'
  {
    if s == "" then -1 else if s[|s| - 1] == '/' then |s| - 1 else LastSlash(s[..|s| - 1])
  }

  // memchr(s, '/', |s|) - s, or -1
  function FirstSlash(s: string): (k: int)
    ensures -1 <= k < |s| && (k >= 0 ==> s[k] == '/') && forall j :: 0 <= j < (if k >= 0 then k else |s|) ==>
              s[j] != '/'
  {
    if s == "" then -1 else if s[0] == '/' then 0 else var k := FirstSlash(s[1..]); if k == -1 then -1 else k + 1
  }

  function Dirname(path: string): string {
    var last := LastSlash(path);
    if last == 0 then path[..1]
    else
      var cut := if last > 0 && last + 1 == |path| then FirstSlash(path[..last]) else last;
      if cut == -1 then "." else path[..cut]
  }

  function Basename(path: string): string {
    path[LastSlash(path) + 1..]
  }

  // dirname and basename take a canonical path apart.
  lemma DirnameBasename(stack: seq<string>, c: string)
    requires '/' !in c && c != ""
    ensures Dirname(Flat(stack + [c])) == Joined(stack) && Basename(Flat(stack + [c])) == c
  {
    hide LastSlash, FirstSlash;
    var path := Flat(stack + [c]);
    FlatSnoc(stack, c);
    var k := |Flat(stack)|;
    assert path[k] == '/' && forall j :: k < j < |path| ==> path[j] == c[j - k - 1];
    assert LastSlash(path) == k;
    assert stack != [] ==> Flat(stack) != "";
  }

  // dirname and basename of a path that does not end with a slash take it apart at the last one.
  lemma TakeApart(d: string, c: string)
    requires c != "" && '/' !in c
    ensures Dirname(d + "/" + c) == (if d == "" then "/" else d) && Basename(d + "/" + c) == c
    ensures Dirname(c) == "." && Basename(c) == c
  {
    hide LastSlash, FirstSlash;
    var path, k := d + "/" + c, |d|;
    assert path[k] == '/' && forall j :: k < j < |path| ==> path[j] == c[j - k - 1];
    assert LastSlash(path) == k;
    assert path[..k] == d && path[k + 1..] == c;
    assert LastSlash(c) == -1;
    assert c[0..] == c && d == "" ==> path[..1] == "/";
  }

  lemma TakeApartTop(c: string)
    requires c != "" && '/' !in c
    ensures Dirname(c) == "." && Dirname("/" + c) == "/"
  {
    hide LastSlash, FirstSlash;
    var path := "/" + c;
    assert path[0] == '/' && forall j :: 0 < j < |path| ==> path[j] == c[j - 1];
    assert LastSlash(path) == 0 && LastSlash(c) == -1;
    assert path[..1] == "/";
  }

  // With a closing slash, dirname cuts the path at the first slash instead.
  lemma TakeApartClosed(a: string, b: string)
    requires a != "" && b != "" && '/' !in a && b[|b| - 1] != '/'
    ensures Dirname(a + "/" + b + "/") == a && Dirname(a + "/") == "."
  {
    hide LastSlash, FirstSlash;
    var p := a + "/" + b;
    var path := p + "/";
    assert path[|p|] == '/' && LastSlash(path) == |p|;
    assert path[..|p|] == p && p[|a|] == '/' && forall j :: 0 <= j < |a| ==> p[j] == a[j];
    assert FirstSlash(p) == |a| && path[..|a|] == a;
    var q := a + "/";
    assert q[|a|] == '/' && LastSlash(q) == |a| && q[..|a|] == a;
    assert FirstSlash(a) == -1;
  }

  lemma DirnameRoot()
    ensures Dirname("/") == "/"
  {
  }

  // Dot-dot leads to the directory of the path.
  lemma CanonicalParent(path: string)
    requires path != "" && path[0] == '/'
    ensures Canonical(path + "/" + "..") == Dirname(Canonical(path))
  {
    hide Split, Resolve, Canonical, Dirname;
    Below(path, "..");
    SplitWhole("..");
    var stack := Resolve([], Split(path[1..]));
    ResolveOne(stack, "..");
    if stack == [] {
      DirnameRoot();
    } else {
      var init, c := stack[..|stack| - 1], stack[|stack| - 1];
      assert stack == init + [c] && Proper(c);
      DirnameBasename(init, c);
    }
  }

  // dirname of an absolute path is empty, which no directory is called, exactly when the path
  // has a closing slash that is not its only character.
  lemma DirnameOfSlashed(path: string)
    requires path != "" && path[0] == '/'
    ensures Dirname(path) == "" <==> |path| > 1 && path[|path| - 1] == '/'
  {
    hide LastSlash, FirstSlash;
    var last := LastSlash(path);
    assert last >= 0;
    if last > 0 {
      assert path[..last][0] == '/';
    }
  }

  lemma DirnameClosed(p: string)
    requires p != ""
    ensures Dirname(p + "/") == if FirstSlash(p) == -1 then "." else p[..FirstSlash(p)]
  {
    hide LastSlash, FirstSlash;
    var s := p + "/";
    assert s[|p|] == '/' && s[..|p|] == p;
    assert LastSlash(s) == |p|;
    assert FirstSlash(p) >= 0 ==> s[..FirstSlash(p)] == p[..FirstSlash(p)];
  }

  lemma DirnameOpen(p: string)
    requires p != "" && p[|p| - 1] != '/'
    ensures Dirname(p) == if LastSlash(p) == -1 then "." else if LastSlash(p) == 0 then "/" else p[..LastSlash(p)]
    ensures FirstSlash(p) == -1 <==> LastSlash(p) == -1
    ensures LastSlash(p) == 0 ==> FirstSlash(p) == 0
  {
    hide LastSlash, FirstSlash;
    assert LastSlash(p) == 0 ==> p[..1] == "/";
  }

  // A closing slash makes no difference to dirname exactly when the path has no slash, or one
  // that is not its first character.
  lemma ClosingSlashMatters(p: string)
    requires p != "" && p[|p| - 1] != '/'
    ensures Dirname(p + "/") == Dirname(p) <==> FirstSlash(p) == LastSlash(p) && LastSlash(p) != 0
  {
    hide LastSlash, FirstSlash, Dirname;
    DirnameClosed(p);
    DirnameOpen(p);
  }

  // The directory of "a/b/c/" is given as "a".
  lemma ClosingSlashExample()
    ensures Dirname("a/b/c/") == "a" && Dirname("a/b/c") == "a/b"
  {
    hide LastSlash, FirstSlash;
    var s, p := "a/b/c/", "a/b/c";
    assert s[5] == '/' && s[..5] == p;
    assert LastSlash(s) == 5;
    assert p[0] == 'a' && p[1] == '/' && p[3] == '/' && p[4] == 'c';
    assert FirstSlash(p) == 1;
    assert LastSlash(p) == 3;
  }
}
