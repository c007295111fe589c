/** The explicit-stack directory walk of WindowsModuleScanner.hpp, over a finite tree of directories. */
module ModuleScanner {
  import opened Bits

  /** A folder that is not `readable` is one FindFirstFileEx cannot open. */
  datatype Node = File(name: string) | Folder(name: string, reparse: bool, readable: bool, entries: seq<Node>)

  const SKIPPED: set<string> := {
    ".git", ".vs", ".idea", "node_modules", "build", "dist", "cmake-build-debug", "cmake-build-release",
    "System Volume Information", "$RECYCLE.BIN"}

  // --------------------------------------------------------------- predicates

  function Lower(c: char): char {
    if 'A' <= c <= 'Z' then c - 'A' + 'a' else c
  }

  predicate SameIgnoringCase(a: string, b: string) {
    |a| == |b| && forall i :: 0 <= i < |a| ==> Lower(a[i]) == Lower(b[i])
  }

  /** `wcsrchr(name, '.')`: the name from its last dot on. */
  function Extension(name: string): (r: Option<string>)
    ensures r.Some? ==> r.value != [] && r.value[0] == '.' && '.' !in r.value[1..] && |r.value| <= |name|
                        && r.value == name[|name| - |r.value|..]
    ensures r.Some? <==> '.' in name
  {
    if name == [] then None
    else
      match Extension(name[1..])
      case Some(e) => Some(e)
      case None => if name[0] == '.' then Some(name) else None
  }

  predicate IsDll(name: string) {
    match Extension(name)
    case None => false
    case Some(e) => SameIgnoringCase(e, ".dll")
  }

  lemma {:induction false} ExtensionFrom(name: string, k: nat)
    requires k < |name| && name[k] == '.' && '.' !in name[k + 1..]
    ensures Extension(name) == Some(name[k..])
  {
    if k > 0 {
      assert name[1..][k..] == name[k + 1..];
      assert name[1..][k - 1 + 1..] == name[k + 1..];
      ExtensionFrom(name[1..], k - 1);
      assert name[1..][k - 1..] == name[k..];
    }
  }

  /** A name counts as a library exactly when it ends in ".dll", in any mix of cases. */
  lemma IsDllMeansSuffix(name: string)
    ensures IsDll(name) <==>
              var n := |name|;
              && n >= 4 && name[n - 4] == '.' && name[n - 3] in {'d', 'D'}
              && name[n - 2] in {'l', 'L'} && name[n - 1] in {'l', 'L'}
  {
    if |name| >= 4 {
      var tail := name[|name| - 4..];
      DllSpellings(tail);
      if SameIgnoringCase(tail, ".dll") {
        assert name[|name| - 3..] == tail[1..] == [tail[1], tail[2], tail[3]];
        ExtensionFrom(name, |name| - 4);
      }
    }
  }

  lemma DllSpellings(tail: string)
    requires |tail| == 4
    ensures SameIgnoringCase(tail, ".dll") <==>
              tail[0] == '.' && tail[1] in {'d', 'D'} && tail[2] in {'l', 'L'} && tail[3] in {'l', 'L'}
  {
    assert SameIgnoringCase(tail, ".dll") <==>
        Lower(tail[0]) == '.' && Lower(tail[1]) == 'd' && Lower(tail[2]) == 'l' && Lower(tail[3]) == 'l';
  }

  predicate SkipsDir(name: string) {
    name in SKIPPED
  }

  // ------------------------------------------------------------ specification

  function Join(path: string, name: string): string {
    path + "\\" + name
  }

  /** The recursive walk: no links are followed, skipped folders are pruned, valid libraries are kept. */
  function Walk(path: string, entries: seq<Node>, valid: string -> bool): seq<string>
    decreases entries
  {
    if entries == [] then []
    else WalkNode(path, entries[0], valid) + Walk(path, entries[1..], valid)
  }

  function WalkNode(path: string, node: Node, valid: string -> bool): seq<string>
    decreases node
  {
    if node.name == "." || node.name == ".." then []
    else
      match node
      case File(name) => if IsDll(name) && valid(Join(path, name)) then [Join(path, name)] else []
      case Folder(name, reparse, readable, entries) =>
        if reparse || SkipsDir(name) || !readable then [] else Walk(Join(path, name), entries, valid)
  }

  /**
   * From this node, `trail` leads entry by entry to a file at `found` that is kept: through readable folders that
   * are no links and none of the ten skipped ones, to a valid name that ends in ".dll".
   */
  predicate LeadsTo(path: string, node: Node, valid: string -> bool, trail: seq<nat>, found: string)
    decreases node
  {
    && node.name != "." && node.name != ".."
    && match node
       case File(name) =>
         && trail == [] && found == path + "\\" + name && valid(found)
         && var n := |name|;
            && n >= 4 && name[n - 4] == '.' && name[n - 3] in {'d', 'D'}
            && name[n - 2] in {'l', 'L'} && name[n - 1] in {'l', 'L'}
       case Folder(name, reparse, readable, entries) =>
         && !reparse && readable
         && name !in {".git", ".vs", ".idea", "node_modules", "build", "dist", "cmake-build-debug",
                      "cmake-build-release", "System Volume Information", "$RECYCLE.BIN"}
         && trail != [] && trail[0] < |entries|
         && LeadsTo(path + "\\" + name, entries[trail[0]], valid, trail[1..], found)
  }

  /** The same from a listing. */
  predicate Reaches(path: string, entries: seq<Node>, valid: string -> bool, trail: seq<nat>, found: string) {
    trail != [] && trail[0] < |entries| && LeadsTo(path, entries[trail[0]], valid, trail[1..], found)
  }

  /** The walk lists exactly the files some trail leads to. */
  lemma {:induction false} WalkListsReached(path: string, entries: seq<Node>, valid: string -> bool, found: string)
    ensures found in Walk(path, entries, valid) <==> exists trail :: Reaches(path, entries, valid, trail, found)
    decreases entries
  {
    hide WalkNode;
    if entries == [] {
    } else {
      WalkNodeListsReached(path, entries[0], valid, found);
      WalkListsReached(path, entries[1..], valid, found);
      if t :| LeadsTo(path, entries[0], valid, t, found) {
        assert ([0] + t)[1..] == t;
        assert Reaches(path, entries, valid, [0] + t, found);
      }
      if t :| Reaches(path, entries[1..], valid, t, found) {
        assert ([t[0] + 1] + t[1..])[1..] == t[1..];
        assert Reaches(path, entries, valid, [t[0] + 1] + t[1..], found);
      }
      if t :| Reaches(path, entries, valid, t, found) {
        if t[0] == 0 {
          var rest := t[1..];
          assert LeadsTo(path, entries[0], valid, rest, found);
          assert exists trail :: LeadsTo(path, entries[0], valid, trail, found);
        } else {
          assert ([t[0] - 1] + t[1..])[1..] == t[1..];
          assert Reaches(path, entries[1..], valid, [t[0] - 1] + t[1..], found);
        }
      }
    }
  }

  lemma {:induction false} WalkNodeListsReached(path: string, node: Node, valid: string -> bool, found: string)
    ensures found in WalkNode(path, node, valid) <==> exists trail :: LeadsTo(path, node, valid, trail, found)
    decreases node
  {
    if node.File? {
      FileListed(path, node, valid, found);
    } else {
      var inside := path + "\\" + node.name;
      WalkListsReached(inside, node.entries, valid, found);
      hide Walk, WalkNode, LeadsTo, Reaches;
      FolderListed(path, node, valid, found);
      if Entered(node) {
        if t :| Reaches(inside, node.entries, valid, t, found) {
          FolderTrail(path, node, valid, t, found);
        }
        if t :| LeadsTo(path, node, valid, t, found) {
          FolderTrail(path, node, valid, t, found);
        }
      } else {
        forall t
          ensures !LeadsTo(path, node, valid, t, found)
        {
          FolderTrail(path, node, valid, t, found);
        }
      }
    }
  }

  lemma FileListed(path: string, node: Node, valid: string -> bool, found: string)
    requires node.File?
    ensures found in WalkNode(path, node, valid) <==> exists trail :: LeadsTo(path, node, valid, trail, found)
  {
    IsDllMeansSuffix(node.name);
    hide IsDll;
    if found in WalkNode(path, node, valid) {
      assert LeadsTo(path, node, valid, [], found);
    }
    if t :| LeadsTo(path, node, valid, t, found) {
      assert found in WalkNode(path, node, valid);
    }
  }

  predicate Entered(node: Node)
    requires node.Folder?
  {
    node.name != "." && node.name != ".." && !node.reparse && node.readable && !SkipsDir(node.name)
  }

  lemma FolderListed(path: string, node: Node, valid: string -> bool, found: string)
    requires node.Folder?
    ensures found in WalkNode(path, node, valid)
       <==> Entered(node) && found in Walk(path + "\\" + node.name, node.entries, valid)
  {
    hide SkipsDir, Walk;
  }

  lemma FolderTrail(path: string, node: Node, valid: string -> bool, trail: seq<nat>, found: string)
    requires node.Folder?
    ensures LeadsTo(path, node, valid, trail, found)
       <==> Entered(node) && Reaches(path + "\\" + node.name, node.entries, valid, trail, found)
  {
  }

  // --------------------------------------------------------------------- code

  /** A directory on the stack, with what the file system holds for it. */
  datatype Pending = Pending(path: string, readable: bool, entries: seq<Node>)

  function Listing(p: Pending): seq<Node> {
    if p.readable then p.entries else []
  }

  /** What the walk still owes for the directories on the stack. */
  ghost function Owed(stack: seq<Pending>, valid: string -> bool): multiset<string> {
    if stack == [] then multiset{}
    else Owed(stack[..|stack| - 1], valid) + multiset(Walk(stack[|stack| - 1].path, Listing(stack[|stack| - 1]), valid))
  }

  ghost function Size(node: Node): nat
    decreases node, 1
  {
    1 + if node.Folder? then Sizes(node.entries) else 0
  }

  ghost function Sizes(entries: seq<Node>): nat
    decreases entries, 0
  {
    if entries == [] then 0 else Size(entries[0]) + Sizes(entries[1..])
  }

  /** The nodes left in the pending subtrees. */
  ghost function Left(stack: seq<Pending>): nat {
    if stack == [] then 0 else Left(stack[..|stack| - 1]) + 1 + Sizes(Listing(stack[|stack| - 1]))
  }

  lemma PushOwes(stack: seq<Pending>, p: Pending, valid: string -> bool)
    ensures Owed(stack + [p], valid) == Owed(stack, valid) + multiset(Walk(p.path, Listing(p), valid))
    ensures Left(stack + [p]) == Left(stack) + 1 + Sizes(Listing(p))
  {
    assert (stack + [p])[..|stack|] == stack;
  }

  /** One entry of a listing: it is put out, pushed, or passed over. */
  method Visit(path: string, node: Node, valid: string -> bool, stack: seq<Pending>, out: seq<string>)
    returns (stack': seq<Pending>, out': seq<string>)
    ensures multiset(out') + Owed(stack', valid)
         == multiset(out) + Owed(stack, valid) + multiset(WalkNode(path, node, valid))
    ensures Left(stack') <= Left(stack) + Size(node)
  {
    hide IsDll, SkipsDir;
    stack', out' := stack, out;
    if node.name == "." || node.name == ".." { return; }
    match node {
      case Folder(name, reparse, readable, entries) =>
        if reparse || SkipsDir(name) { return; }
        stack' := stack + [Pending(Join(path, name), readable, entries)];
        PushOwes(stack, Pending(Join(path, name), readable, entries), valid);
      case File(name) =>
        if !IsDll(name) { return; }
        var fullPath := Join(path, name);
        if valid(fullPath) {
          out' := out + [fullPath];
        }
    }
  }

  /**
   * The stack empties on every finite tree, and what comes out is, up to order, the recursive walk:
   * every library kept is listed exactly as often as the tree holds it.
   */
  method ScanIterative(root: string, readable: bool, entries: seq<Node>, valid: string -> bool)
    returns (out: seq<string>)
    ensures multiset(out) == if readable then multiset(Walk(root, entries, valid)) else multiset{}
  {
    hide Owed, Left, Walk, WalkNode, Size;
    out := [];
    var stack := [Pending(root, readable, entries)];
    StartOwes(Pending(root, readable, entries), valid);
    ghost var all := Owed(stack, valid);
    while stack != []
      invariant multiset(out) + Owed(stack, valid) == all
      decreases Left(stack)
    {
      var dir := stack[|stack| - 1];
      ghost var before := stack;
      stack := stack[..|stack| - 1];
      PushOwes(stack, dir, valid);
      assert stack + [dir] == before;
      NothingOwed(dir.path, valid);
      if !dir.readable { continue; }
      stack, out := ScanListing(dir.path, dir.entries, valid, stack, out);
    }
    NothingOwed(root, valid);
  }

  /** The inner loop, over one listing. */
  method ScanListing(path: string, entries: seq<Node>, valid: string -> bool, stack: seq<Pending>, out: seq<string>)
    returns (stack': seq<Pending>, out': seq<string>)
    ensures multiset(out') + Owed(stack', valid)
         == multiset(out) + Owed(stack, valid) + multiset(Walk(path, entries, valid))
    ensures Left(stack') <= Left(stack) + Sizes(entries)
  {
    hide Owed, Left, WalkNode, Size;
    stack', out' := stack, out;
    for i := 0 to |entries|
      invariant multiset(out') + Owed(stack', valid) + multiset(Walk(path, entries[i..], valid))
             == multiset(out) + Owed(stack, valid) + multiset(Walk(path, entries, valid))
      invariant Left(stack') + Sizes(entries[i..]) <= Left(stack) + Sizes(entries)
    {
      assert entries[i..][0] == entries[i] && entries[i..][1..] == entries[i + 1..];
      stack', out' := Visit(path, entries[i], valid, stack', out');
    }
  }

  lemma NothingOwed(path: string, valid: string -> bool)
    ensures Owed([], valid) == multiset{} && multiset(Walk(path, [], valid)) == multiset{}
  {
  }

  lemma StartOwes(p: Pending, valid: string -> bool)
    ensures Owed([p], valid) == multiset(Walk(p.path, Listing(p), valid))
  {
    PushOwes([], p, valid);
    assert [] + [p] == [p];
  }
}
