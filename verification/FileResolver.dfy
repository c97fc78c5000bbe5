/** The include resolver (`gen/typegen/compiler/files.py`): a depth-first search that lists files after the files they
    include. */
module FileResolvers {

  type Path = string

  /** The files there are, each with the paths it includes. */
  type Files = map<Path, seq<Path>>

  datatype Outcome = Resolved | Circular(path: Path) | CannotOpen(path: Path)

  // ---- The include graph ------------------------------------------------------------------------

  ghost predicate IsChain(files: Files, p: seq<Path>) {
    |p| > 0 && forall i :: 0 <= i < |p| - 1 ==> p[i] in files && p[i + 1] in files[p[i]]
  }

  ghost predicate ChainFromTo(files: Files, p: seq<Path>, a: Path, b: Path) {
    IsChain(files, p) && p[0] == a && p[|p| - 1] == b
  }

  ghost predicate Reaches(files: Files, a: Path, b: Path) {
    exists p :: ChainFromTo(files, p, a, b)
  }

  /** The file includes itself, directly or through others. */
  ghost predicate OnCycle(files: Files, a: Path) {
    exists p :: |p| >= 2 && ChainFromTo(files, p, a, a)
  }

  /** The path is included from the roots, or is one of them. */
  ghost predicate Needed(files: Files, roots: seq<Path>, path: Path) {
    exists r :: r in roots && Reaches(files, r, path)
  }

  lemma ReachesItself(files: Files, a: Path)
    ensures Reaches(files, a, a)
  {
    assert ChainFromTo(files, [a], a, a);
  }

  lemma ReachesOn(files: Files, a: Path, b: Path, c: Path)
    requires a in files && b in files[a] && Reaches(files, b, c)
    ensures Reaches(files, a, c)
  {
    var p :| ChainFromTo(files, p, b, c);
    assert ChainFromTo(files, [a] + p, a, c);
  }

  // ---- Topological order ------------------------------------------------------------------------

  /** Each file appears once, after all the files it includes. */
  ghost predicate InOrder(files: Files, result: seq<Path>) {
    forall i :: 0 <= i < |result| ==>
      && result[i] in files && result[i] !in result[..i]
      && forall d :: d in files[result[i]] ==> d in result[..i]
  }

  /** Everything a file in the list leads to comes before it. */
  lemma {:induction false} ChainGoesBack(files: Files, result: seq<Path>, i: nat, p: seq<Path>)
    requires InOrder(files, result) && i < |result|
    requires IsChain(files, p) && |p| >= 2 && p[0] == result[i]
    ensures p[|p| - 1] in result[..i]
    decreases |p|
  {
    assert p[1] in result[..i];
    var j :| 0 <= j < i && result[j] == p[1];
    if |p| > 2 {
      ChainGoesBack(files, result, j, p[1..]);
    }
  }

  /** No file of the list, nor any file it leads to, is on a cycle or missing. */
  lemma OrderedIsAcyclic(files: Files, result: seq<Path>, a: Path, b: Path)
    requires InOrder(files, result) && a in result && Reaches(files, a, b)
    ensures b in result && b in files && !OnCycle(files, b)
  {
    var p :| ChainFromTo(files, p, a, b);
    var i :| 0 <= i < |result| && result[i] == a;
    if |p| >= 2 {
      ChainGoesBack(files, result, i, p);
    }
    var j :| 0 <= j < |result| && result[j] == b;
    forall q | |q| >= 2 ensures !ChainFromTo(files, q, b, b) {
      if ChainFromTo(files, q, b, b) {
        ChainGoesBack(files, result, j, q);
      }
    }
  }

  lemma InOrderAppend(files: Files, result: seq<Path>, path: Path)
    requires InOrder(files, result) && path in files && path !in result
    requires forall d :: d in files[path] ==> d in result
    ensures InOrder(files, result + [path])
  {
    var longer := result + [path];
    forall i | 0 <= i < |longer|
      ensures longer[i] in files && longer[i] !in longer[..i] && forall d :: d in files[longer[i]] ==> d in longer[..i]
    {
      assert longer[..i] == result[..i];
    }
  }

  // ---- The resolver -----------------------------------------------------------------------------

  class FileResolver {
    const files: Files
    var visited: set<Path>
    var resolving: set<Path>
    var result: seq<Path>

    constructor (files: Files)
      ensures this.files == files && Valid([]) && result == []
    {
      this.files := files;
      visited := {};
      resolving := {};
      result := [];
    }

    /** `stack` is the chain of files being resolved, each included by the one before. */
    ghost predicate Valid(stack: seq<Path>)
      reads this
    {
      && InOrder(files, result) && (forall path :: path in visited <==> path in result)
      && (forall path :: path in resolving <==> path in stack) && resolving !! visited
      && (stack != [] ==> IsChain(files, stack)) && (forall path :: path in stack ==> path in files)
    }

    /** List the files the paths need. It fails exactly when one of them is missing or includes itself. */
    method Resolve(paths: seq<Path>) returns (outcome: Outcome)
      requires Valid([])
      modifies this
      ensures outcome.Resolved? <==>
              forall path :: Needed(files, paths, path) ==> path in files && !OnCycle(files, path)
      ensures outcome.Resolved? ==> Valid([]) && old(result) <= result
      ensures outcome.Resolved? ==> forall i, j :: 0 <= i < j < |result| ==> result[i] != result[j]
      ensures outcome.Resolved? ==>
                forall i :: 0 <= i < |result| ==>
                  result[i] in files && forall d :: d in files[result[i]] ==> d in result[..i]
      ensures outcome.Resolved? ==> forall path :: path in result <==> path in old(result) || Needed(files, paths, path)
      ensures outcome.Circular? ==> Needed(files, paths, outcome.path) && OnCycle(files, outcome.path)
      ensures outcome.CannotOpen? ==> Needed(files, paths, outcome.path) && outcome.path !in files
    {
      for i := 0 to |paths|
        invariant Valid([]) && old(result) <= result
        invariant forall path :: path in paths[..i] ==> path in result
        invariant forall path :: path in result ==> path in old(result) || Needed(files, paths, path)
      {
        outcome := Dfs(paths[i], []);
        if !outcome.Resolved? {
          return;
        }
        assert paths[i] in paths;
        assert paths[..i + 1] == paths[..i] + [paths[i]];
      }
      forall path | Needed(files, paths, path) ensures path in result && path in files && !OnCycle(files, path) {
        var root :| root in paths && Reaches(files, root, path);
        OrderedIsAcyclic(files, result, root, path);
      }
      return Resolved;
    }

    /** Open the file and list everything it leads to, then the file itself. */
    method Dfs(path: Path, ghost stack: seq<Path>) returns (outcome: Outcome)
      requires Valid(stack)
      requires stack != [] ==> path in files[stack[|stack| - 1]]
      modifies this
      ensures outcome.Resolved? ==> Valid(stack) && old(result) <= result && path in result
      ensures outcome.Resolved? ==> forall q :: q in result ==> q in old(result) || Reaches(files, path, q)
      ensures outcome.Circular? ==> Reaches(files, path, outcome.path) && OnCycle(files, outcome.path)
      ensures outcome.CannotOpen? ==> Reaches(files, path, outcome.path) && outcome.path !in files
      decreases files.Keys - resolving
    {
      ReachesItself(files, path);
      if path !in files {
        return CannotOpen(path);
      }
      if path in resolving {
        StackCycle(path, stack);
        return Circular(path);
      }
      if path in visited {
        return Resolved;
      }
      resolving := resolving + {path};
      ghost var stack' := stack + [path];
      var includes := files[path];
      for i := 0 to |includes|
        invariant Valid(stack') && old(result) <= result && resolving == old(resolving) + {path}
        invariant forall d :: d in includes[..i] ==> d in result
        invariant forall q :: q in result ==> q in old(result) || Reaches(files, path, q)
      {
        var dep := includes[i];
        ghost var before := result;
        assert dep in includes;
        outcome := Dfs(dep, stack');
        if !outcome.Resolved? {
          ReachesOn(files, path, dep, outcome.path);
          return;
        }
        assert includes[..i + 1] == includes[..i] + [dep];
        forall d | d in includes[..i + 1] ensures d in result {
          if d != dep {
            assert d in before;
          }
        }
        forall q | q in result ensures q in old(result) || Reaches(files, path, q) {
          if q !in before {
            ReachesOn(files, path, dep, q);
          }
        }
      }
      resolving := resolving - {path};
      InOrderAppend(files, result, path);
      visited := visited + {path};
      result := result + [path];
      return Resolved;
    }

    /** A file met again while it is being resolved closes a cycle. */
    lemma StackCycle(path: Path, stack: seq<Path>)
      requires Valid(stack) && path in stack && path in files[stack[|stack| - 1]]
      ensures OnCycle(files, path)
    {
      var i :| 0 <= i < |stack| && stack[i] == path;
      var p := stack[i..] + [path];
      assert ChainFromTo(files, p, path, path);
    }
  }
}
