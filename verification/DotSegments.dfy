/** Dot-segment removal (section 5.2.4 of RFC 3986): the in-place loop, and what it
    means in terms of path segments. */
module DotSegments {
  import opened Text

  predicate NoSlash(s: string) { forall i :: 0 <= i < |s| ==> s[i] != '/' }

  predicate NoSlashes(segs: seq<string>) { forall i :: 0 <= i < |segs| ==> NoSlash(segs[i]) }

  /** The text between slashes. */
  function Split(s: string): (segs: seq<string>)
    ensures |segs| >= 1
    decreases |s|
  {
    var k := Find(s, '/');
    if k == |s| then [s] else [s[..k]] + Split(s[k + 1..])
  }

  function Join(segs: seq<string>): string
    requires |segs| >= 1
  {
    var n := |segs| - 1;
    if n == 0 then segs[0] else Join(segs[..n]) + "/" + segs[n]
  }

  predicate Dot(seg: string) { seg == "." || seg == ".." }

  predicate NoDots(segs: seq<string>) { forall i :: 0 <= i < |segs| ==> !Dot(segs[i]) }

  function Pop(stack: seq<string>): (r: seq<string>)
    requires |stack| >= 1
    ensures |r| >= 1
  {
    if |stack| > 1 then stack[..|stack| - 1] else [""]
  }

  /** Reads segments onto a stack: "." stands for here, ".." for the segment before; a
      dot segment at the very end leaves a trailing slash. */
  function Walk(stack: seq<string>, segs: seq<string>): (r: seq<string>)
    requires |stack| >= 1
    ensures |r| >= 1
    decreases |segs|
  {
    if segs == [] then stack
    else
      var base := if segs[0] == ".." then Pop(stack) else stack;
      if Dot(segs[0]) then Walk(if |segs| == 1 then base + [""] else base, segs[1..])
      else Walk(stack + [segs[0]], segs[1..])
  }

  /** Leading "../" and "./" of a path without a leading slash have nothing to refer to. */
  function StripLeading(s: string): string
    decreases |s|
  {
    if "../" <= s then StripLeading(s[3..])
    else if "./" <= s then StripLeading(s[2..])
    else if Dot(s) then ""
    else s
  }

  /** The path with its dot segments resolved. */
  function Resolved(s: string): string {
    var t := StripLeading(s);
    if t == "" then "" else Join(Walk([Split(t)[0]], Split(t)[1..]))
  }

  // ---------------------------------------------------------------- splitting and joining

  lemma SplitNoSlash(s: string)
    requires NoSlash(s)
    ensures Split(s) == [s]
  {
  }

  lemma SplitAt(a: string, b: string)
    requires NoSlash(a)
    ensures Split(a + "/" + b) == [a] + Split(b)
  {
    var s := a + "/" + b;
    FindIs(s, '/', |a|);
    assert s[..|a|] == a && s[|a| + 1..] == b;
  }

  lemma {:induction false} SplitParts(s: string)
    ensures NoSlashes(Split(s))
    decreases |s|
  {
    var k := Find(s, '/');
    if k < |s| { SplitParts(s[k + 1..]); }
  }

  lemma JoinSnoc(segs: seq<string>, seg: string)
    requires |segs| >= 1
    ensures Join(segs + [seg]) == Join(segs) + "/" + seg
  {
    assert (segs + [seg])[..|segs|] == segs;
  }

  lemma {:induction false} JoinCons(seg: string, segs: seq<string>)
    requires |segs| >= 1
    ensures Join([seg] + segs) == seg + "/" + Join(segs)
  {
    var n := |segs| - 1;
    if n == 0 {
      JoinSnoc([seg], segs[0]);
      assert [seg] + segs == [seg] + [segs[0]];
    } else {
      JoinCons(seg, segs[..n]);
      assert [seg] + segs == ([seg] + segs[..n]) + [segs[n]];
      JoinSnoc([seg] + segs[..n], segs[n]);
      assert seg + "/" + Join(segs[..n]) + "/" + segs[n] == seg + "/" + (Join(segs[..n]) + "/" + segs[n]);
    }
  }

  lemma {:induction false} SplitJoin(segs: seq<string>)
    requires |segs| >= 1 && NoSlashes(segs)
    ensures Split(Join(segs)) == segs
  {
    if |segs| == 1 {
      SplitNoSlash(segs[0]);
    } else {
      assert segs == [segs[0]] + segs[1..];
      JoinCons(segs[0], segs[1..]);
      SplitJoin(segs[1..]);
      SplitAt(segs[0], Join(segs[1..]));
    }
  }

  lemma SplitStep(s: string)
    ensures var k := Find(s, '/'); Split(s) == if k == |s| then [s] else [s[..k]] + Split(s[k + 1..])
  {
    hide Find;
  }

  lemma JoinOne(seg: string)
    ensures Join([seg]) == seg
  {
  }

  lemma {:induction false} JoinSplit(s: string)
    ensures Join(Split(s)) == s
    decreases |s|
  {
    hide Join, Split;
    var k := Find(s, '/');
    SplitStep(s);
    if k < |s| {
      JoinSplit(s[k + 1..]);
      JoinCons(s[..k], Split(s[k + 1..]));
      assert s == s[..k] + "/" + s[k + 1..];
    } else {
      JoinOne(s);
    }
  }

  // ---------------------------------------------------------------- the loop

  function RemoveLastSegment(output: string): string {
    var k := FindLast(output, '/');
    if k == |output| then "" else output[..k]
  }

  lemma LastSlashIs(a: string, b: string)
    requires NoSlash(b)
    ensures FindLast(a + "/" + b, '/') == |a|
  {
    assert (a + "/" + b)[|a| + 1..] == b;
    FindLastIs(a + "/" + b, '/', |a|);
  }

  lemma JoinLast(stack: seq<string>)
    requires |stack| >= 2
    ensures Join(stack) == Join(Pop(stack)) + "/" + stack[|stack| - 1]
  {
  }

  lemma RemoveLastIsPop(stack: seq<string>)
    requires |stack| >= 1 && NoSlashes(stack)
    ensures RemoveLastSegment(Join(stack)) == Join(Pop(stack)) && NoSlashes(Pop(stack))
  {
    hide FindLast, Join, NoSlash;
    var last := stack[|stack| - 1];
    if |stack| == 1 {
      assert stack == [last];
      JoinOne(last);
      JoinOne("");
      NoSlashAnywhere(last);
      FindLastNone(last, '/');
      EmptyHasNoSlash();
    } else {
      var a := Join(Pop(stack));
      JoinLast(stack);
      LastSlashIs(a, last);
      assert (a + "/" + last)[..|a|] == a;
    }
  }

  lemma NoSlashAnywhere(s: string)
    requires NoSlash(s)
    ensures '/' !in s
  {
  }

  lemma EmptyHasNoSlash()
    ensures NoSlash("")
  {
  }

  lemma StripStep(s: string)
    ensures "../" <= s ==> StripLeading(s) == StripLeading(s[3..])
    ensures !("../" <= s) && "./" <= s ==> StripLeading(s) == StripLeading(s[2..])
    ensures !("../" <= s) && !("./" <= s) && Dot(s) ==> StripLeading(s) == ""
    ensures !("../" <= s) && !("./" <= s) && !Dot(s) ==> StripLeading(s) == s
  {
  }

  lemma WalkStep(stack: seq<string>, seg: string, rest: seq<string>)
    requires |stack| >= 1
    ensures Walk(stack, [seg] + rest) ==
            var base := if seg == ".." then Pop(stack) else stack;
            if Dot(seg) then Walk(if rest == [] then base + [""] else base, rest) else Walk(stack + [seg], rest)
  {
    assert ([seg] + rest)[1..] == rest;
  }

  /** What the loop still has to produce when `output` is the joined stack and the
      input starts with a slash. */
  function Pending(stack: seq<string>, input: string): string
    requires |stack| >= 1 && input != "" && input[0] == '/'
  {
    Join(Walk(stack, Split(input[1..])))
  }

  lemma PendingHere(stack: seq<string>, y: string)
    requires |stack| >= 1
    ensures Pending(stack, "/./" + y) == Pending(stack, "/" + y)
  {
    assert ("/./" + y)[1..] == "." + "/" + y && ("/" + y)[1..] == y;
    SplitAt(".", y);
    WalkStep(stack, ".", Split(y));
  }

  lemma PendingUp(stack: seq<string>, y: string)
    requires |stack| >= 1
    ensures Pending(stack, "/../" + y) == Pending(Pop(stack), "/" + y)
  {
    assert ("/../" + y)[1..] == ".." + "/" + y && ("/" + y)[1..] == y;
    SplitAt("..", y);
    WalkStep(stack, "..", Split(y));
  }

  lemma PendingLast(stack: seq<string>, seg: string)
    requires |stack| >= 1 && NoSlash(seg)
    ensures Pending(stack, "/" + seg) ==
            Join(if seg == "." then stack + [""] else if seg == ".." then Pop(stack) + [""] else stack + [seg])
  {
    assert ("/" + seg)[1..] == seg;
    SplitNoSlash(seg);
    WalkStep(stack, seg, []);
    assert [seg] + [] == [seg];
  }

  lemma PendingPlain(stack: seq<string>, seg: string, y: string)
    requires |stack| >= 1 && NoSlash(seg) && !Dot(seg)
    ensures Pending(stack, "/" + seg + "/" + y) == Pending(stack + [seg], "/" + y)
  {
    assert ("/" + seg + "/" + y)[1..] == seg + "/" + y && ("/" + y)[1..] == y;
    SplitAt(seg, y);
    WalkStep(stack, seg, Split(y));
  }

  lemma ResolvedAbsolute(s: string)
    requires s != "" && s[0] == '/'
    ensures Resolved(s) == Pending([""], s)
  {
    assert s == "" + "/" + s[1..];
    SplitAt("", s[1..]);
    StripStep(s);
    assert ([""] + Split(s[1..]))[1..] == Split(s[1..]);
  }

  lemma ResolvedUnfold(s: string, first: string, rest: seq<string>)
    requires s != "" && StripLeading(s) == s && Split(s) == [first] + rest
    ensures Resolved(s) == Join(Walk([first], rest))
  {
    hide Join, Walk, Split, StripLeading;
    assert ([first] + rest)[1..] == rest;
  }

  lemma ResolvedRelative(s: string)
    requires s != "" && s[0] != '/' && !("../" <= s) && !("./" <= s) && !Dot(s)
    ensures var k := Find(s, '/');
            Resolved(s) == if k == |s| then s else Pending([s[..k]], s[k..])
  {
    hide Join, Walk, Split, StripLeading, Resolved;
    var k := Find(s, '/');
    StripStep(s);
    SplitStep(s);
    if k < |s| {
      assert s[k..][1..] == s[k + 1..];
      ResolvedUnfold(s, s[..k], Split(s[k + 1..]));
    } else {
      assert [s] == [s] + [];
      ResolvedUnfold(s, s, []);
      WalkNothing([s]);
      JoinOne(s);
    }
  }

  lemma WalkNothing(stack: seq<string>)
    requires |stack| >= 1
    ensures Walk(stack, []) == stack
  {
  }

  /** Moving one segment, with its leading slash, from the input to the output. */
  lemma PendingMove(stack: seq<string>, seg: string, tail: string)
    requires |stack| >= 1 && NoSlash(seg)
    requires !Dot(seg) && (tail == "" || tail[0] == '/')
    ensures Pending(stack, "/" + seg + tail) ==
            if tail == "" then Join(stack + [seg]) else Pending(stack + [seg], tail)
  {
    hide Pending, Join;
    if tail == "" {
      assert "/" + seg + tail == "/" + seg;
      PendingLast(stack, seg);
    } else {
      assert tail == "/" + tail[1..];
      assert "/" + seg + tail == "/" + seg + "/" + tail[1..];
      PendingPlain(stack, seg, tail[1..]);
    }
  }

  function SegmentEnd(input: string): (e: nat)
    requires input != ""
    ensures 1 <= e <= |input| && NoSlash(input[1..e])
    ensures input[e..] == "" || input[e..][0] == '/'
    ensures input == input[..1] + input[1..e] + input[e..]
  {
    hide Find;
    var e := 1 + Find(input[1..], '/');
    assert forall i :: 1 <= i < e ==> input[i] == input[1..][i - 1];
    assert e < |input| ==> input[e] == input[1..][e - 1];
    e
  }

  lemma NotDotSegment(seg: string, tail: string)
    requires var input := "/" + seg + tail;
             !("/./" <= input) && input != "/." && !("/../" <= input) && input != "/.."
    requires tail == "" || tail[0] == '/'
    ensures !Dot(seg)
  {
  }

  /** Removes everything from the last slash on (redirect.cc's helper on the output). */
  method EraseLastSegment(output: string) returns (r: string)
    ensures r == RemoveLastSegment(output)
  {
    hide FindLast;
    var slash := |output|;
    while slash > 0 && output[slash - 1] != '/'
      invariant 0 <= slash <= |output|
      invariant NoSlash(output[slash..])
    {
      slash := slash - 1;
      assert output[slash..] == [output[slash]] + output[slash + 1..];
    }
    if slash == 0 {
      assert output[0..] == output;
      NoSlashAnywhere(output);
      FindLastNone(output, '/');
      r := "";
    } else {
      FindLastIs(output, '/', slash - 1);
      r := output[..slash - 1];
    }
  }

  /** The loop invariant. An empty stack: only leading dot segments have been dropped.
      Otherwise the output is the joined stack and the rest of the input is pending. */
  ghost predicate Progress(raw: string, output: string, input: string, stack: seq<string>) {
    if stack == [] then
      output == "" && Resolved(input) == Resolved(raw) && (input == "" || input[0] != '/')
    else
      && NoSlashes(stack)
      && output == Join(stack)
      && (if input == "" then output == Resolved(raw)
          else input[0] == '/' && Resolved(raw) == Pending(stack, input))
  }

  ghost function Start(input: string): seq<string> {
    if input != "" && input[0] == '/' then [""] else []
  }

  lemma Enter(raw: string, input: string)
    requires Resolved(input) == Resolved(raw)
    ensures Progress(raw, "", input, Start(input))
  {
    hide Resolved, Pending, Join;
    if Start(input) != [] {
      ResolvedAbsolute(input);
      JoinOne("");
    }
  }

  lemma StripResolved(s: string, t: string)
    requires StripLeading(s) == StripLeading(t)
    ensures Resolved(s) == Resolved(t)
  {
  }

  lemma DropLeading(raw: string, output: string, input: string, stack: seq<string>)
    requires Progress(raw, output, input, stack)
    requires "../" <= input || "./" <= input || Dot(input)
    ensures stack == [] && output == ""
    ensures var rest := if "../" <= input then input[3..] else if "./" <= input then input[2..] else "";
            Progress(raw, "", rest, Start(rest))
  {
    hide Resolved, Pending, Join, StripLeading;
    StripStep(input);
    var rest := if "../" <= input then input[3..] else if "./" <= input then input[2..] else "";
    StripStep("");
    StripResolved(input, rest);
    Enter(raw, rest);
  }

  lemma StayHere(raw: string, output: string, input: string, stack: seq<string>)
    requires Progress(raw, output, input, stack) && ("/./" <= input || input == "/.")
    ensures Progress(raw, output, if "/./" <= input then input[2..] else "/", stack)
  {
    hide Resolved, Pending, Join;
    if "/./" <= input {
      assert input == "/./" + input[3..] && input[2..] == "/" + input[3..];
      PendingHere(stack, input[3..]);
    } else {
      PendingLast(stack, ".");
      PendingLast(stack, "");
      assert "/" + "." == input && "/" + "" == "/";
    }
  }

  lemma GoUp(raw: string, output: string, input: string, stack: seq<string>)
    requires Progress(raw, output, input, stack) && ("/../" <= input || input == "/..")
    ensures stack != []
    ensures Progress(raw, RemoveLastSegment(output), if "/../" <= input then input[3..] else "/", Pop(stack))
  {
    hide Resolved, Pending, Join, RemoveLastSegment;
    RemoveLastIsPop(stack);
    if "/../" <= input {
      assert input == "/../" + input[4..] && input[3..] == "/" + input[4..];
      PendingUp(stack, input[4..]);
    } else {
      PendingLast(stack, "..");
      PendingLast(Pop(stack), "");
      assert "/" + ".." == input && "/" + "" == "/";
    }
  }

  lemma MoveFirst(raw: string, input: string)
    requires Progress(raw, "", input, []) && input != ""
    requires !("../" <= input) && !("./" <= input) && !Dot(input)
    ensures var e := Find(input, '/'); Progress(raw, input[..e], input[e..], [input[..e]])
  {
    hide Resolved, Pending, Join;
    var e := Find(input, '/');
    ResolvedRelative(input);
    JoinOne(input[..e]);
    assert e == |input| ==> input[..e] == input && input[e..] == "";
  }

  lemma MoveNext(raw: string, output: string, input: string, stack: seq<string>)
    requires Progress(raw, output, input, stack) && stack != [] && input != ""
    requires !("/./" <= input) && input != "/." && !("/../" <= input) && input != "/.."
    ensures var e := SegmentEnd(input);
            Progress(raw, output + input[..e], input[e..], stack + [input[1..e]])
  {
    hide Resolved, Pending, Join, SegmentEnd;
    var e := SegmentEnd(input);
    var seg := input[1..e];
    assert input == "/" + seg + input[e..];
    NotDotSegment(seg, input[e..]);
    PendingMove(stack, seg, input[e..]);
    JoinSnoc(stack, seg);
    assert input[..e] == "/" + seg;
    assert output + ("/" + seg) == output + "/" + seg;
  }

  /** The loop resolves exactly the dot segments. */
  method RemoveDotSegments(raw: string) returns (output: string)
    ensures output == Resolved(raw)
  {
    hide Resolved, Pending, Join, Walk, Split, StripLeading, RemoveLastSegment, SegmentEnd, Find, Progress;
    var input := raw;
    output := "";
    ghost var stack := Start(raw);
    Enter(raw, raw);
    while input != ""
      invariant Progress(raw, output, input, stack)
      decreases |input|
    {
      if "../" <= input {
        DropLeading(raw, output, input, stack);
        input := input[3..];
        stack := Start(input);
      } else if "./" <= input {
        DropLeading(raw, output, input, stack);
        input := input[2..];
        stack := Start(input);
      } else if "/./" <= input {
        StayHere(raw, output, input, stack);
        input := input[2..];
      } else if input == "/." {
        StayHere(raw, output, input, stack);
        input := "/";
      } else if "/../" <= input {
        GoUp(raw, output, input, stack);
        input := input[3..];
        output := EraseLastSegment(output);
        stack := Pop(stack);
      } else if input == "/.." {
        GoUp(raw, output, input, stack);
        input := "/";
        output := EraseLastSegment(output);
        stack := Pop(stack);
      } else if input == "." || input == ".." {
        DropLeading(raw, output, input, stack);
        input := "";
        stack := Start(input);
      } else {
        StackMatchesInput(raw, output, input, stack);
        var end := if input[0] == '/' then SegmentEnd(input) else Find(input, '/');
        if input[0] == '/' {
          MoveNext(raw, output, input, stack);
          stack := stack + [input[1..end]];
        } else {
          MoveFirst(raw, input);
          stack := [input[..end]];
          assert "" + input[..end] == input[..end];
        }
        output := output + input[..end];
        input := input[end..];
      }
    }
    Finished(raw, output, stack);
  }

  lemma StackMatchesInput(raw: string, output: string, input: string, stack: seq<string>)
    requires Progress(raw, output, input, stack) && input != ""
    ensures input[0] == '/' <==> stack != []
    ensures stack == [] ==> output == ""
    ensures input[0] != '/' ==> Find(input, '/') > 0
  {
  }

  lemma Finished(raw: string, output: string, stack: seq<string>)
    requires Progress(raw, output, "", stack)
    ensures output == Resolved(raw)
  {
  }

  // ---------------------------------------------------------------- what resolution promises

  lemma {:induction false} WalkClean(stack: seq<string>, segs: seq<string>)
    requires |stack| >= 1 && NoDots(stack) && NoSlashes(stack) && NoSlashes(segs)
    ensures NoDots(Walk(stack, segs)) && NoSlashes(Walk(stack, segs))
    decreases |segs|
  {
    if segs != [] {
      var base := if segs[0] == ".." then Pop(stack) else stack;
      assert NoSlash(segs[0]) && NoSlash("");
      if Dot(segs[0]) { WalkClean(if |segs| == 1 then base + [""] else base, segs[1..]); }
      else { WalkClean(stack + [segs[0]], segs[1..]); }
    }
  }

  lemma {:induction false} WalkKeeps(stack: seq<string>, segs: seq<string>)
    requires |stack| >= 1 && NoDots(segs)
    ensures Walk(stack, segs) == stack + segs
    decreases |segs|
  {
    if segs == [] {
      assert stack + segs == stack;
    } else {
      WalkKeeps(stack + [segs[0]], segs[1..]);
      assert stack + segs == stack + [segs[0]] + segs[1..];
    }
  }

  lemma {:induction false} StripLeadingStops(s: string)
    ensures var t := StripLeading(s); !("../" <= t) && !("./" <= t) && !Dot(t)
    decreases |s|
  {
    if "../" <= s { StripLeadingStops(s[3..]); }
    else if "./" <= s { StripLeadingStops(s[2..]); }
  }

  lemma FirstSegment(t: string)
    requires !("../" <= t) && !("./" <= t) && !Dot(t)
    ensures !Dot(Split(t)[0])
  {
    hide Find;
    SplitStep(t);
    var k := Find(t, '/');
    if k < |t| { assert t == t[..k] + "/" + t[k + 1..]; }
  }

  /** The resolved path has no "." and no ".." segment left. */
  lemma NoDotSegmentsLeft(s: string)
    ensures NoDots(Split(Resolved(s)))
  {
    hide Walk, Split, StripLeading, Join;
    var t := StripLeading(s);
    if t == "" {
      SplitNoSlash("");
    } else {
      var segs := Split(t);
      StripLeadingStops(s);
      FirstSegment(t);
      SplitParts(t);
      assert NoSlash(segs[0]);
      assert forall i :: 0 <= i < |segs[1..]| ==> segs[1..][i] == segs[i + 1];
      WalkClean([segs[0]], segs[1..]);
      SplitJoin(Walk([segs[0]], segs[1..]));
    }
  }

  /** A path without dot segments is left alone. */
  lemma CleanPathIsKept(s: string)
    requires NoDots(Split(s))
    ensures Resolved(s) == s
  {
    hide Walk, Split, Join;
    StripStep(s);
    SplitStep(s);
    if "../" <= s { FindIs(s, '/', 2); }
    if "./" <= s { FindIs(s, '/', 1); }
    if s != "" {
      var segs := Split(s);
      WalkKeeps([segs[0]], segs[1..]);
      assert [segs[0]] + segs[1..] == segs;
      JoinSplit(s);
    }
  }

  /** Resolving twice changes nothing more. */
  lemma ResolvingTwice(s: string)
    ensures Resolved(Resolved(s)) == Resolved(s)
  {
    hide Resolved, Split;
    NoDotSegmentsLeft(s);
    CleanPathIsKept(Resolved(s));
  }

  lemma {:induction false} WalkRooted(stack: seq<string>, segs: seq<string>)
    requires |stack| >= 1 && stack[0] == "" && (segs != [] || |stack| >= 2)
    ensures |Walk(stack, segs)| >= 2 && Walk(stack, segs)[0] == ""
    decreases |segs|
  {
    if segs != [] {
      var base := if segs[0] == ".." then Pop(stack) else stack;
      if !Dot(segs[0]) { WalkRooted(stack + [segs[0]], segs[1..]); }
      else { WalkRooted(if |segs| == 1 then base + [""] else base, segs[1..]); }
    }
  }

  /** An absolute path stays absolute: climbing stops at the root. */
  lemma AbsoluteStaysAbsolute(s: string)
    requires s != "" && s[0] == '/'
    ensures var r := Resolved(s); r != "" && r[0] == '/'
  {
    hide Walk, Split, Join, Resolved;
    ResolvedAbsolute(s);
    var segs := Split(s[1..]);
    WalkRooted([""], segs);
    var r := Walk([""], segs);
    assert r == [""] + r[1..];
    JoinCons("", r[1..]);
    assert "" + "/" + Join(r[1..]) == "/" + Join(r[1..]);
  }

  // ---------------------------------------------------------------- no new characters

  predicate Lacks(segs: seq<string>, c: char) { forall i :: 0 <= i < |segs| ==> c !in segs[i] }

  lemma {:induction false} SplitLacks(s: string, c: char)
    requires c !in s
    ensures Lacks(Split(s), c)
    decreases |s|
  {
    hide Split, Find;
    SplitStep(s);
    var k := Find(s, '/');
    if k < |s| { SplitLacks(s[k + 1..], c); }
  }

  lemma {:induction false} WalkLacks(stack: seq<string>, segs: seq<string>, c: char)
    requires |stack| >= 1 && Lacks(stack, c) && Lacks(segs, c)
    ensures Lacks(Walk(stack, segs), c)
    decreases |segs|
  {
    if segs != [] {
      var base := if segs[0] == ".." then Pop(stack) else stack;
      if Dot(segs[0]) { WalkLacks(if |segs| == 1 then base + [""] else base, segs[1..], c); }
      else { WalkLacks(stack + [segs[0]], segs[1..], c); }
    }
  }

  lemma {:induction false} JoinLacks(segs: seq<string>, c: char)
    requires |segs| >= 1 && Lacks(segs, c) && c != '/'
    ensures c !in Join(segs)
  {
    if |segs| > 1 { JoinLacks(segs[..|segs| - 1], c); }
  }

  lemma {:induction false} StripLeadingIsSuffix(s: string)
    ensures forall c :: c in StripLeading(s) ==> c in s
    decreases |s|
  {
    if "../" <= s { StripLeadingIsSuffix(s[3..]); }
    else if "./" <= s { StripLeadingIsSuffix(s[2..]); }
  }

  /** Every character of the result other than a slash occurs in the path. */
  lemma NothingInvented(s: string, c: char)
    requires c != '/' && c !in s
    ensures c !in Resolved(s)
  {
    hide Walk, Split, Join, StripLeading;
    StripLeadingIsSuffix(s);
    var t := StripLeading(s);
    if t != "" {
      SplitLacks(t, c);
      var segs := Split(t);
      WalkLacks([segs[0]], segs[1..], c);
      JoinLacks(Walk([segs[0]], segs[1..]), c);
    }
  }

  // ---------------------------------------------------------------- what the dots mean

  /** The stack after reading `segs`, with more to come. */
  function Position(stack: seq<string>, segs: seq<string>): (r: seq<string>)
    requires |stack| >= 1
    ensures |r| >= 1
    decreases |segs|
  {
    if segs == [] then stack
    else
      Position(if segs[0] == ".." then Pop(stack) else if segs[0] == "." then stack else stack + [segs[0]], segs[1..])
  }

  lemma {:induction false} WalkThrough(stack: seq<string>, before: seq<string>, after: seq<string>)
    requires |stack| >= 1 && after != []
    ensures Walk(stack, before + after) == Walk(Position(stack, before), after)
    decreases |before|
  {
    if before == [] {
      assert before + after == after;
    } else {
      var next := if before[0] == ".." then Pop(stack) else if before[0] == "." then stack else stack + [before[0]];
      assert before + after == [before[0]] + (before[1..] + after);
      WalkStep(stack, before[0], before[1..] + after);
      WalkThrough(next, before[1..], after);
    }
  }

  lemma {:induction false} SplitAppend(a: string, b: string)
    ensures Split(a + "/" + b) == Split(a) + Split(b)
    decreases |a|
  {
    hide Find, Split;
    var k := Find(a, '/');
    SplitStep(a);
    if k == |a| {
      SplitAt(a, b);
    } else {
      var first, rest := a[..k], a[k + 1..];
      assert a + "/" + b == first + "/" + (rest + "/" + b);
      SplitAt(first, rest + "/" + b);
      SplitAppend(rest, b);
      assert [first] + (Split(rest) + Split(b)) == ([first] + Split(rest)) + Split(b);
    }
  }

  function StackOf(a: string): (r: seq<string>)
    ensures |r| >= 1
  {
    if a == "" then [""] else Position([""], Split(a[1..]))
  }

  lemma ResolvedAfter(a: string, b: string)
    requires a == "" || a[0] == '/'
    ensures Resolved(a + "/" + b) == Pending(StackOf(a), "/" + b)
  {
    hide Walk, Split, Join, Resolved, Position;
    ResolvedAbsolute(a + "/" + b);
    assert ("/" + b)[1..] == b;
    if a == "" {
      assert a + "/" + b == "/" + b;
    } else {
      assert (a + "/" + b)[1..] == a[1..] + "/" + b;
      SplitAppend(a[1..], b);
      WalkThrough([""], Split(a[1..]), Split(b));
    }
  }

  /** "." stands for the place it is in. */
  lemma HereIsDropped(a: string, b: string)
    requires a == "" || a[0] == '/'
    ensures Resolved(a + "/./" + b) == Resolved(a + "/" + b)
    ensures Resolved(a + "/.") == Resolved(a + "/")
  {
    hide Resolved, Pending, StackOf;
    assert a + "/./" + b == a + "/" + ("./" + b);
    assert "/" + ("./" + b) == "/./" + b;
    ResolvedAfter(a, "./" + b);
    ResolvedAfter(a, b);
    PendingHere(StackOf(a), b);
    assert a + "/." == a + "/" + "." && a + "/" == a + "/" + "";
    assert "/" + "." == "/." && "/" + "" == "/";
    ResolvedAfter(a, ".");
    ResolvedAfter(a, "");
    EmptyHasNoSlash();
    PendingLast(StackOf(a), ".");
    PendingLast(StackOf(a), "");
  }

  lemma DotsHaveNoSlash()
    ensures NoSlash(".") && NoSlash("..")
  {
  }

  /** ".." cancels the segment before it. */
  lemma UpCancels(a: string, seg: string, b: string)
    requires (a == "" || a[0] == '/') && NoSlash(seg) && !Dot(seg)
    ensures Resolved(a + "/" + seg + "/../" + b) == Resolved(a + "/" + b)
    ensures Resolved(a + "/" + seg + "/..") == Resolved(a + "/")
  {
    hide Resolved, Pending, StackOf, NoSlash, Join;
    var stack := StackOf(a);
    assert a + "/" + seg + "/../" + b == a + "/" + (seg + "/../" + b);
    ResolvedAfter(a, seg + "/../" + b);
    ResolvedAfter(a, b);
    assert "/" + (seg + "/../" + b) == "/" + seg + "/" + ("../" + b);
    PendingPlain(stack, seg, "../" + b);
    assert "/" + ("../" + b) == "/../" + b;
    PendingUp(stack + [seg], b);
    assert (stack + [seg])[..|stack|] == stack;
    assert a + "/" + seg + "/.." == a + "/" + (seg + "/..") && a + "/" == a + "/" + "";
    assert "/" + (seg + "/..") == "/" + seg + "/" + "..";
    ResolvedAfter(a, seg + "/..");
    ResolvedAfter(a, "");
    PendingPlain(stack, seg, "..");
    EmptyHasNoSlash();
    DotsHaveNoSlash();
    PendingLast(stack + [seg], "..");
    PendingLast(stack, "");
  }

  /** ".." at the root stays at the root. */
  lemma UpStopsAtRoot(b: string)
    ensures Resolved("/../" + b) == Resolved("/" + b)
    ensures Resolved("/..") == "/"
  {
    hide Resolved, Pending, Join;
    assert "/../" + b == "" + "/" + ("../" + b) && "/" + b == "" + "/" + b;
    assert "/" + ("../" + b) == "/../" + b;
    ResolvedAfter("", "../" + b);
    ResolvedAfter("", b);
    PendingUp([""], b);
    ResolvedAfter("", "..");
    assert "" + "/" + ".." == "/.." && "/" + ".." == "/..";
    PendingLast([""], "..");
    assert [""] + [""] == ["", ""];
    JoinSnoc([""], "");
    JoinOne("");
  }
}
