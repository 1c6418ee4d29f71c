/**
 Paths of the key-value store, and the flat map its tree stands for (`validatePath` in
 apps/memkv/src/memkv_store.cc).
 */
module PathMap {
  type Path = seq<string>

  /** Data by path; closed under prefixes and never without the root. */
  type Tree = map<Path, string>

  const EMPTY_TREE: Tree := map[[] := ""]

  datatype Status = OK | InvalidArgument | NodeNotExist

  // ---------------------------------------------------------------------------------------
  // Paths
  // ---------------------------------------------------------------------------------------

  predicate IsSpace(c: char) {
    c == ' ' || '\t' <= c <= '\r'
  }

  function TrimLeft(s: string): string {
    if s != [] && IsSpace(s[0]) then TrimLeft(s[1..]) else s
  }

  function TrimRight(s: string): string {
    if s != [] && IsSpace(s[|s| - 1]) then TrimRight(s[..|s| - 1]) else s
  }

  function TrimSpace(s: string): string {
    TrimRight(TrimLeft(s))
  }

  /** boost::split at every '/', keeping empty segments. */
  function Split(s: string): (segs: seq<string>)
    ensures |segs| >= 1
  {
    if s == [] then [""]
    else
      var rest := Split(s[1..]);
      if s[0] == '/' then [""] + rest else [[s[0]] + rest[0]] + rest[1..]
  }

  /** The segments of a valid path, or none if it is empty or contains NUL. */
  function ValidatePath(p: string): (segs: seq<string>)
  {
    var path := TrimSpace(p);
    if path == [] || '\0' in path then [] else Split(path)
  }

  predicate IsValid(p: string) {
    ValidatePath(p) != []
  }

  /** Empty segments are ignored. */
  function Key(segs: seq<string>): Path {
    if segs == [] then [] else (if segs[0] == "" then [] else [segs[0]]) + Key(segs[1..])
  }

  function KeyOf(p: string): Path {
    Key(ValidatePath(p))
  }

  lemma {:induction false} KeyConcat(a: seq<string>, b: seq<string>)
    ensures Key(a + b) == Key(a) + Key(b)
  {
    if a == [] {
      assert a + b == b;
    } else {
      assert (a + b)[1..] == a[1..] + b;
      KeyConcat(a[1..], b);
      var h := if a[0] == "" then [] else [a[0]];
      assert h + (Key(a[1..]) + Key(b)) == h + Key(a[1..]) + Key(b);
    }
  }

  /** The path of a segment below p. */
  function Enter(p: Path, seg: string): Path {
    if seg == "" then p else p + [seg]
  }

  lemma KeySnoc(segs: seq<string>, seg: string)
    ensures Key(segs + [seg]) == Enter(Key(segs), seg)
  {
    KeyConcat(segs, [seg]);
    assert [seg][1..] == [];
    assert Key([seg]) == if seg == "" then [] else [seg];
  }

  lemma KeyNext(segs: seq<string>, i: nat)
    requires i < |segs|
    ensures Key(segs[..i + 1]) == Enter(Key(segs[..i]), segs[i])
  {
    assert segs[..i + 1] == segs[..i] + [segs[i]];
    KeySnoc(segs[..i], segs[i]);
  }

  lemma KeyPrefix(segs: seq<string>, i: nat)
    requires i <= |segs|
    ensures Key(segs[..i]) <= Key(segs)
  {
    assert segs == segs[..i] + segs[i..];
    KeyConcat(segs[..i], segs[i..]);
  }

  // ---------------------------------------------------------------------------------------
  // The map
  // ---------------------------------------------------------------------------------------

  ghost predicate PrefixClosed(t: Tree) {
    [] in t && forall p :: p in t && p != [] ==> p[..|p| - 1] in t
  }

  function Prefixes(key: Path): set<Path> {
    set i | 0 <= i <= |key| :: key[..i]
  }

  /** t with the missing nodes on the way to key, without data. */
  function Grown(t: Tree, key: Path): Tree {
    map p | p in t.Keys + Prefixes(key) :: if p in t then t[p] else ""
  }

  /** Growing one level further adds at most one node. */
  lemma GrownNext(t: Tree, p: Path, seg: string)
    ensures var q, g := p + [seg], Grown(t, p); Grown(t, q) == if q in g then g else g[q := ""]
  {
    var q := p + [seg];
    assert Prefixes(q) == Prefixes(p) + {q} by {
      forall x | x in Prefixes(q) ensures x in Prefixes(p) + {q} {
        var i :| 0 <= i <= |q| && x == q[..i];
        if i <= |p| {
          assert q[..i] == p[..i];
        } else {
          assert q[..i] == q;
        }
      }
      forall x | x in Prefixes(p) ensures x in Prefixes(q) {
        var i :| 0 <= i <= |p| && x == p[..i];
        assert q[..i] == p[..i];
      }
      assert q[..|q|] == q;
    }
  }

  lemma GrownRoot(t: Tree)
    requires [] in t
    ensures Grown(t, []) == t
  {
    assert Prefixes([]) == {[]} by {
      forall x | x in Prefixes([]) ensures x == [] {
      }
      var e: Path := [];
      assert e[..0] in Prefixes(e);
    }
  }

  /** Write: sets one key and creates missing ancestors. */
  function Put(t: Tree, key: Path, value: string): Tree {
    Grown(t, key)[key := value]
  }

  /** Delete: removes a key and everything under it. */
  function Cut(t: Tree, key: Path): Tree {
    map p | p in t && !(key <= p) :: t[p]
  }

  function AfterWrite(t: Tree, path: string, value: string): (Tree, Status) {
    if !IsValid(path) then (t, InvalidArgument) else (Put(t, KeyOf(path), value), OK)
  }

  /** The last segment is empty: the trimmed path ends in '/'. */
  predicate EndsInSlash(path: string)
    requires IsValid(path)
  {
    var segs := ValidatePath(path);
    segs[|segs| - 1] == ""
  }

  /**
   Delete, as coded: the node is erased when it belongs to the last segment, so a path that
   ends in '/' erases nothing, and reports an error if its node exists.
   */
  function AfterDelete(t: Tree, path: string): (Tree, Status) {
    if !IsValid(path) then (t, InvalidArgument)
    else if KeyOf(path) !in t then (t, OK)
    else if EndsInSlash(path) then (t, InvalidArgument)
    else (Cut(t, KeyOf(path)), OK)
  }

  function Get(t: Tree, path: string): (Status, string) {
    if !IsValid(path) then (InvalidArgument, "")
    else if KeyOf(path) in t then (OK, t[KeyOf(path)])
    else (NodeNotExist, "")
  }

  // ---------------------------------------------------------------------------------------
  // What paths mean
  // ---------------------------------------------------------------------------------------

  function Join(segs: seq<string>): string
    requires segs != []
  {
    if |segs| == 1 then segs[0] else segs[0] + "/" + Join(segs[1..])
  }

  /** Split cuts at exactly the slashes: its segments have none, and joined they are the path. */
  lemma {:induction false} SplitJoin(s: string)
    ensures Join(Split(s)) == s
    ensures forall i :: 0 <= i < |Split(s)| ==> '/' !in Split(s)[i]
  {
    if s != [] {
      SplitJoin(s[1..]);
      var segs, rest := Split(s), Split(s[1..]);
      if s[0] == '/' {
        assert segs[1..] == rest;
        assert Join(segs) == "" + "/" + Join(rest) == s;
      } else {
        assert segs[1..] == rest[1..] && segs[0] == [s[0]] + rest[0];
        if |rest| > 1 {
          assert Join(segs) == ([s[0]] + rest[0]) + "/" + Join(rest[1..]) == [s[0]] + Join(rest);
        }
      }
    }
  }

  lemma {:induction false} LastSegment(s: string)
    ensures Split(s)[|Split(s)| - 1] == "" <==> s == [] || s[|s| - 1] == '/'
  {
    if |s| > 1 {
      LastSegment(s[1..]);
      assert s[|s| - 1] == s[1..][|s| - 2];
      var rest := Split(s[1..]);
      if s[0] != '/' && |rest| == 1 {
        SplitJoin(s[1..]);
      }
    } else if |s| == 1 {
      assert s[1..] == [] && Split(s[1..]) == [""];
    }
  }

  /** Split is a homomorphism: a slash between two strings separates their segments. */
  lemma {:induction false} SplitConcat(a: string, b: string)
    ensures Split(a + "/" + b) == Split(a) + Split(b)
  {
    var s := a + "/" + b;
    if a == [] {
      assert s[0] == '/' && s[1..] == b && Split(a) == [""];
    } else {
      assert s[0] == a[0] && s[1..] == a[1..] + "/" + b;
      SplitConcat(a[1..], b);
    }
  }

  lemma {:induction false} SplitNoSlash(s: string)
    requires '/' !in s
    ensures Split(s) == [s]
  {
    if s != [] {
      SplitNoSlash(s[1..]);
      assert [s[0]] + s[1..] == s;
    }
  }

  /** The key of two strings with a slash between them is the key of the one, then of the other. */
  lemma KeyOfSlash(a: string, b: string)
    ensures Key(Split(a + "/" + b)) == Key(Split(a)) + Key(Split(b))
    ensures '/' !in a ==> Key(Split(a)) == if a == "" then [] else [a]
  {
    SplitConcat(a, b);
    KeyConcat(Split(a), Split(b));
    if '/' !in a {
      SplitNoSlash(a);
      assert [a][1..] == [];
    }
  }

  lemma SpacesAre(c: char)
    ensures IsSpace(c) <==> c in [' ', '\t', '\n', 11 as char, 12 as char, '\r']
  {
  }

  /** Trimming takes spaces off both ends, and no more. */
  lemma {:induction false} TrimLaw(p: string) returns (i: nat, j: nat)
    ensures i <= j <= |p| && TrimSpace(p) == p[i..j]
    ensures forall k :: 0 <= k < i || j <= k < |p| ==> IsSpace(p[k])
    ensures TrimSpace(p) != [] ==> !IsSpace(p[i]) && !IsSpace(p[j - 1])
  {
    i := TrimLeftLaw(p);
    var q := p[i..];
    var n := TrimRightLaw(q);
    j := i + n;
    assert q[..n] == p[i..j];
    forall k | j <= k < |p| ensures IsSpace(p[k]) {
      assert p[k] == q[k - i];
    }
  }

  lemma {:induction false} TrimLeftLaw(p: string) returns (i: nat)
    ensures i <= |p| && TrimLeft(p) == p[i..]
    ensures (forall k :: 0 <= k < i ==> IsSpace(p[k])) && (i < |p| ==> !IsSpace(p[i]))
  {
    if p != [] && IsSpace(p[0]) {
      var i' := TrimLeftLaw(p[1..]);
      i := i' + 1;
      assert p[1..][i'..] == p[i..];
    } else {
      i := 0;
    }
  }

  lemma {:induction false} TrimRightLaw(p: string) returns (n: nat)
    ensures n <= |p| && TrimRight(p) == p[..n]
    ensures (forall k :: n <= k < |p| ==> IsSpace(p[k])) && (n > 0 ==> !IsSpace(p[n - 1]))
  {
    if p != [] && IsSpace(p[|p| - 1]) {
      n := TrimRightLaw(p[..|p| - 1]);
      assert p[..|p| - 1][..n] == p[..n];
    } else {
      n := |p|;
      assert p[..n] == p;
    }
  }

  /** What the store asks of a path: something besides spaces, and no NUL. */
  predicate Acceptable(p: string) {
    '\0' !in p && exists k :: 0 <= k < |p| && !IsSpace(p[k])
  }

  lemma ValidIff(p: string)
    ensures IsValid(p) <==> Acceptable(p)
  {
    var i, j := TrimLaw(p);
    var path := TrimSpace(p);
    if '\0' in p {
      var k :| 0 <= k < |p| && p[k] == '\0';
      assert i <= k < j && path[k - i] == '\0';
    }
    if k :| 0 <= k < |p| && !IsSpace(p[k]) {
      assert path[k - i] == p[k];
    }
  }

  /** A slash in front of or behind a path does not change its key. */
  lemma SlashesIgnored(p: string)
    requires Acceptable(p) && TrimSpace(p) == p
    ensures Acceptable("/" + p) && KeyOf("/" + p) == KeyOf(p)
    ensures Acceptable(p + "/") && KeyOf(p + "/") == KeyOf(p)
  {
    var front, behind := "/" + p, p + "/";
    KeyOfSlash("", p);
    KeyOfSlash(p, "");
    KeyOfSlash("", "");
    assert "" + "/" + p == front && p + "/" + "" == behind;
    TrimmedEnds(p);
    KeyOfTrimmed(p);
    AcceptableMore(p);
    TrimmedEnds(front);
    KeyOfTrimmed(front);
    TrimmedEnds(behind);
    KeyOfTrimmed(behind);
  }

  lemma AcceptableMore(p: string)
    requires Acceptable(p)
    ensures Acceptable("/" + p) && Acceptable(p + "/")
  {
    assert ("/" + p)[0] == '/' && (p + "/")[|p|] == '/';
  }

  lemma KeyOfTrimmed(p: string)
    requires Acceptable(p) && TrimSpace(p) == p
    ensures KeyOf(p) == Key(Split(p))
  {
    ValidIff(p);
  }

  /** Nothing is trimmed exactly when neither end is a space. */
  lemma TrimmedEnds(p: string)
    requires p != []
    ensures TrimSpace(p) == p <==> !IsSpace(p[0]) && !IsSpace(p[|p| - 1])
  {
    var i, j := TrimLaw(p);
    if !IsSpace(p[0]) && !IsSpace(p[|p| - 1]) {
      assert i == 0 && j == |p|;
    }
  }

  /** A path ends in an empty segment exactly when, trimmed, it ends in '/'. */
  lemma EndsInSlashIff(path: string)
    requires IsValid(path)
    ensures EndsInSlash(path) <==> TrimSpace(path)[|TrimSpace(path)| - 1] == '/'
  {
    LastSegment(TrimSpace(path));
  }

  // ---------------------------------------------------------------------------------------
  // Laws of the map
  // ---------------------------------------------------------------------------------------

  lemma PutKeepsClosed(t: Tree, key: Path, value: string)
    requires PrefixClosed(t)
    ensures PrefixClosed(Put(t, key, value))
  {
    var t' := Put(t, key, value);
    forall p | p in t' && p != [] ensures p[..|p| - 1] in t' {
      if p in Prefixes(key) || p == key {
        var i :| 0 <= i <= |key| && p == key[..i];
        assert p[..|p| - 1] == key[..i - 1];
        assert key[..i - 1] in Prefixes(key);
      }
    }
  }

  lemma CutKeepsClosed(t: Tree, key: Path)
    requires PrefixClosed(t) && key != []
    ensures PrefixClosed(Cut(t, key))
  {
    forall p | p in Cut(t, key) && p != [] ensures p[..|p| - 1] in Cut(t, key) {
      assert key <= p[..|p| - 1] ==> key <= p;
    }
  }

  lemma PrefixesIs(key: Path, p: Path)
    ensures p in Prefixes(key) <==> p <= key
  {
    if p <= key {
      assert p == key[..|p|];
    }
  }

  /**
   Which paths the store takes, and what it answers: Write succeeds on every acceptable path
   and the value is then there; Delete succeeds unless an existing path ends in '/'; Get finds
   a path exactly when its key is there.  On any other path all three are refused and nothing
   changes.
   */
  lemma Answers(t: Tree, path: string, value: string)
    ensures if Acceptable(path) then
              && AfterWrite(t, path, value).1 == OK
              && Get(AfterWrite(t, path, value).0, path) == (OK, value)
              && (AfterDelete(t, path).1 == OK <==>
                    KeyOf(path) !in t || TrimSpace(path)[|TrimSpace(path)| - 1] != '/')
              && (Get(t, path).0 == OK <==> KeyOf(path) in t)
              && (Get(t, path).0 != OK ==> Get(t, path) == (NodeNotExist, ""))
              && (AfterDelete(t, path).1 != OK ==> AfterDelete(t, path) == (t, InvalidArgument))
            else
              && AfterWrite(t, path, value) == (t, InvalidArgument)
              && AfterDelete(t, path) == (t, InvalidArgument)
              && Get(t, path) == (InvalidArgument, "")
  {
    ValidIff(path);
    if Acceptable(path) {
      EndsInSlashIff(path);
      PrefixesIs(KeyOf(path), KeyOf(path));
    }
  }

  /** Slashes in front do not matter: what was written to p is read at "///" + p. */
  lemma ReadsBack(t: Tree, p: string, value: string)
    requires Acceptable(p) && TrimSpace(p) == p
    ensures Get(AfterWrite(t, p, value).0, "/" + ("/" + ("/" + p))) == (OK, value)
  {
    MoreSlashes(p);
    MoreSlashes("/" + p);
    MoreSlashes("/" + ("/" + p));
    ValidIff(p);
    ValidIff("/" + ("/" + ("/" + p)));
    WriteThenGet(t, p, value, "/" + ("/" + ("/" + p)));
  }

  lemma MoreSlashes(p: string)
    requires Acceptable(p) && TrimSpace(p) == p
    ensures Acceptable("/" + p) && TrimSpace("/" + p) == "/" + p && KeyOf("/" + p) == KeyOf(p)
  {
    SlashesIgnored(p);
    TrimmedEnds(p);
    TrimmedEnds("/" + p);
  }

  /**
   After a Write every path of the same key reads the value, its missing ancestors read as
   empty, and every other path reads as before.
   */
  lemma WriteThenGet(t: Tree, path: string, value: string, q: string)
    requires IsValid(path) && IsValid(q)
    ensures Get(AfterWrite(t, path, value).0, q) ==
            if KeyOf(q) == KeyOf(path) then (OK, value)
            else if KeyOf(q) !in t && KeyOf(q) <= KeyOf(path) then (OK, "")
            else Get(t, q)
  {
    PrefixesIs(KeyOf(path), KeyOf(q));
  }

  /**
   Delete of an existing path removes exactly it and its descendants if and only if the trimmed
   path does not end in '/'; otherwise, and for a missing path, nothing changes.
   */
  lemma DeleteThenGet(t: Tree, path: string, q: string)
    requires IsValid(path) && IsValid(q)
    ensures var t' := AfterDelete(t, path).0;
            && Get(t', q) == (if KeyOf(path) in t && !EndsInSlash(path) && KeyOf(path) <= KeyOf(q)
                              then (NodeNotExist, "") else Get(t, q))
            && (KeyOf(path) in t ==> (KeyOf(path) !in t' <==> !EndsInSlash(path)))
            && (KeyOf(path) !in t || EndsInSlash(path) ==> t' == t)
  {
  }

  /** Delete("/a/") right after Write("/a", ...) is refused, and the node is still there. */
  lemma TrailingSlashDeletesNothing(value: string)
    ensures IsValid("/a") && IsValid("/a/")
    ensures var t := AfterWrite(EMPTY_TREE, "/a", value).0;
            AfterDelete(t, "/a/") == (t, InvalidArgument) && Get(t, "/a") == (OK, value)
  {
    SplitSlashA();
    var t := AfterWrite(EMPTY_TREE, "/a", value).0;
    assert KeyOf("/a") == ["a"] && KeyOf("/a/") == ["a"];
    assert ["a"] in t;
  }

  lemma SplitSlashA()
    ensures ValidatePath("/a") == ["", "a"] && ValidatePath("/a/") == ["", "a", ""]
    ensures Key(["", "a"]) == ["a"] && Key(["", "a", ""]) == ["a"]
  {
    var s := "/a";
    assert TrimLeft(s) == s && TrimRight(s) == s;
    var none := Split("");
    assert none == [""] && none[1..] == [] && "a" + "" == "a";
    assert s[1..] == "a" && "a"[1..] == "" && Split("a") == ["a" + ""] + none[1..] == ["a"];
    var u := "/a/";
    assert TrimLeft(u) == u && TrimRight(u) == u;
    assert u[1..] == "a/" && "a/"[1..] == "/" && "/"[1..] == "";
    assert Split("/") == ["", ""] && Split("a/") == ["a", ""];
    assert ["", "a"][1..] == ["a"] && ["a"][1..] == [] && Key(["a"]) == ["a"];
    assert ["", "a", ""][1..] == ["a", ""] && ["a", ""][1..] == [""] && [""][1..] == [] && Key([""]) == [];
    assert Key(["a", ""]) == ["a"];
  }

  // ---------------------------------------------------------------------------------------
  // Runs
  // ---------------------------------------------------------------------------------------

  datatype StoreOp = WriteOp(path: string, value: string) | DeleteOp(path: string)

  function Perform(t: Tree, op: StoreOp): Tree {
    match op
    case WriteOp(path, value) => AfterWrite(t, path, value).0
    case DeleteOp(path) => AfterDelete(t, path).0
  }

  function PerformAll(t: Tree, ops: seq<StoreOp>): Tree
    decreases |ops|
  {
    if ops == [] then t else PerformAll(Perform(t, ops[0]), ops[1..])
  }

  lemma RootIsNotCut(path: string)
    requires IsValid(path) && !EndsInSlash(path)
    ensures KeyOf(path) != []
  {
    var segs := ValidatePath(path);
    var init, last := segs[..|segs| - 1], segs[|segs| - 1];
    assert segs == init + [last];
    KeySnoc(init, last);
  }

  /** The root is never lost and no node is without its parent, after any operations. */
  lemma {:induction false} AlwaysPrefixClosed(t: Tree, ops: seq<StoreOp>)
    requires PrefixClosed(t)
    ensures PrefixClosed(PerformAll(t, ops))
    decreases |ops|
  {
    if ops != [] {
      match ops[0] {
        case WriteOp(path, value) => PutKeepsClosed(t, KeyOf(path), value);
        case DeleteOp(path) =>
          if IsValid(path) && !EndsInSlash(path) {
            RootIsNotCut(path);
            CutKeepsClosed(t, KeyOf(path));
          }
      }
      AlwaysPrefixClosed(Perform(t, ops[0]), ops[1..]);
    }
  }

  lemma {:induction false} PerformAllSnoc(t: Tree, ops: seq<StoreOp>, op: StoreOp)
    ensures PerformAll(t, ops + [op]) == Perform(PerformAll(t, ops), op)
    decreases |ops|
  {
    if ops == [] {
      assert ops + [op] == [op] && [op][1..] == [];
    } else {
      assert (ops + [op])[1..] == ops[1..] + [op];
      PerformAllSnoc(Perform(t, ops[0]), ops[1..], op);
    }
  }
}
