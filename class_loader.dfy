/**
 * ClassLoader: maps a fully qualified class name under a root namespace to
 * a file below a root path, and registers itself with PHP's autoloader
 * stack at most once.
 */
module ClassLoaders {
  import opened Php

  /** `array_shift` on the remaining name parts: NULL once they run out. */
  function Shift(parts: seq<string>, i: nat): Option<string>
  {
    if i < |parts| then Some(parts[i]) else None
  }

  /** PHP's loose `==` of a shifted part with a namespace part: NULL equals only "". */
  predicate LooseEq(v: Option<string>, s: string)
  {
    if v.Some? then v.value == s else s == ""
  }

  /** The name's leading parts pass the root namespace check. */
  predicate Matches(ns: seq<string>, parts: seq<string>)
  {
    forall i | 0 <= i < |ns| :: LooseEq(Shift(parts, i), ns[i])
  }

  /** The parts left after shifting `n` of them off. */
  function Rest(parts: seq<string>, n: nat): seq<string>
  {
    if n <= |parts| then parts[n..] else []
  }

  /** The file `loadClass` looks for, or None when the name is outside the root namespace. */
  function Candidate(root: string, ns: seq<string>, name: string): Option<string>
  {
    var parts := Split(name, '\\');
    if Matches(ns, parts) then Some(root + Join(Rest(parts, |ns|), "/") + ".php") else None
  }

  /** The namespace string survives being exploded and imploded again. */
  lemma RootNamespaceRoundTrip(ns: string)
    ensures Join(Split(ns, '\\'), "\\") == ns
  {
    JoinSplit(ns, '\\');
  }

  /**
   * A class whose name is the root namespace's parts followed by further
   * parts, all free of backslashes, is looked for at the root path plus
   * those further parts joined by "/" plus ".php".
   */
  lemma CandidateUnderRoot(root: string, ns: seq<string>, rel: seq<string>)
    requires |ns + rel| >= 1
    requires forall i, j | 0 <= i < |ns + rel| && 0 <= j < |(ns + rel)[i]| :: (ns + rel)[i][j] != '\\'
    ensures Candidate(root, ns, Join(ns + rel, "\\")) == Some(root + Join(rel, "/") + ".php")
  {
    SplitJoin(ns + rel, '\\');
    var parts := ns + rel;
    assert Rest(parts, |ns|) == rel;
    assert forall i | 0 <= i < |ns| :: Shift(parts, i) == Some(ns[i]);
  }

  /** A name that differs from the root namespace in some leading part is not loaded. */
  lemma CandidateOutside(root: string, ns: seq<string>, name: string, i: nat)
    requires i < |ns| && i < |Split(name, '\\')| && Split(name, '\\')[i] != ns[i]
    ensures Candidate(root, ns, name) == None
  {
    assert !LooseEq(Shift(Split(name, '\\'), i), ns[i]);
  }

  /**
   * A root namespace ending in a backslash has an empty last part, which
   * the NULL that `array_shift` returns past the end equals: the bare
   * first part is then accepted and looked for at the root path plus ".php".
   */
  lemma TrailingBackslashRoot(root: string, a: string)
    requires forall j | 0 <= j < |a| :: a[j] != '\\'
    ensures Split(a + "\\", '\\') == [a, ""]
    ensures Candidate(root, [a, ""], a) == Some(root + ".php")
  {
    SplitNoSep(a, '\\');
    SplitSnoc(a, '\\', '\\');
    CandidateShort(root, a);
  }

  /** The name with one part, against a root namespace whose second part is empty. */
  lemma CandidateShort(root: string, a: string)
    requires Split(a, '\\') == [a]
    ensures Candidate(root, [a, ""], a) == Some(root + ".php")
  {
    var ns := [a, ""];
    var parts := [a];
    assert Matches(ns, parts) by {
      assert Shift(parts, 0) == Some(a) && Shift(parts, 1) == None;
    }
    assert Join(Rest(parts, |ns|), "/") == "";
    assert root + "" + ".php" == root + ".php";
  }

  /** The registration flag and PHP's autoloader stack. */
  datatype Hook<T> = Hook(registered: bool, loaders: seq<T>)

  /** The stack without `me`. */
  function Without<T(==)>(s: seq<T>, me: T): (r: seq<T>)
    ensures me !in r && forall x | x in s && x != me :: x in r
    ensures forall x | x in r :: x in s
  {
    if |s| == 0 then []
    else if s[|s| - 1] == me then Without(s[..|s| - 1], me)
    else Without(s[..|s| - 1], me) + [s[|s| - 1]]
  }

  /** `register`: pushes the loader only when it is not registered yet. */
  function AfterRegister<T>(h: Hook<T>, me: T): Hook<T>
  {
    if !h.registered then Hook(true, h.loaders + [me]) else h
  }

  /** `unregister`: removes the loader only when it is registered. */
  function AfterUnregister<T(==)>(h: Hook<T>, me: T): Hook<T>
  {
    if h.registered then Hook(false, Without(h.loaders, me)) else h
  }

  /** The flag tells whether the loader is on the stack. */
  predicate Consistent<T(==)>(h: Hook<T>, me: T)
  {
    h.registered <==> me in h.loaders
  }

  /** Registering twice is registering once, and likewise for unregistering. */
  lemma Idempotent<T>(h: Hook<T>, me: T)
    ensures AfterRegister(AfterRegister(h, me), me) == AfterRegister(h, me)
    ensures AfterUnregister(AfterUnregister(h, me), me) == AfterUnregister(h, me)
    ensures AfterRegister(h, me).registered && !AfterUnregister(h, me).registered
  {
  }

  /**
   * Both operations keep the flag in step with the stack, and unregistering
   * right after registering restores the stack when the loader was not on it.
   */
  lemma {:induction false} RegisterUnregister<T>(h: Hook<T>, me: T)
    requires Consistent(h, me)
    ensures Consistent(AfterRegister(h, me), me) && Consistent(AfterUnregister(h, me), me)
    ensures AfterRegister(h, me).loaders == (if h.registered then h.loaders else h.loaders + [me])
    ensures !h.registered ==> AfterUnregister(AfterRegister(h, me), me) == h
  {
    if !h.registered {
      WithoutAbsent(h.loaders, me);
      assert (h.loaders + [me])[..|h.loaders|] == h.loaders;
    }
  }

  /** Removing an element that is not there changes nothing. */
  lemma {:induction false} WithoutAbsent<T>(s: seq<T>, me: T)
    requires me !in s
    ensures Without(s, me) == s
  {
    if |s| > 0 {
      WithoutAbsent(s[..|s| - 1], me);
      assert s[..|s| - 1] + [s[|s| - 1]] == s;
    }
  }

  /** The autoloader stack `spl_autoload_register` maintains. */
  class Autoloaders {
    var loaders: seq<ClassLoader>

    constructor ()
      ensures loaders == []
    {
      loaders := [];
    }
  }

  /** A class loader object. */
  class ClassLoader {
    const rootPath: string
    const rootNamespace: seq<string>
    /** The namespace string as given to the constructor. */
    ghost const givenNamespace: string

    /** The stored parts are the exploded constructor argument. */
    ghost predicate Valid()
    {
      rootNamespace == Split(givenNamespace, '\\')
    }
    const autoload: Autoloaders
    var registered: bool

    /** The root path gets a trailing "/" unless it has one; the namespace is exploded on "\\". */
    constructor (rootPath: string, rootNamespace: string, autoload: Autoloaders)
      ensures this.rootPath == WithTrailingSlash(rootPath)
      ensures this.rootNamespace == Split(rootNamespace, '\\') && givenNamespace == rootNamespace
      ensures this.autoload == autoload && !registered && Valid()
    {
      var path := rootPath;
      if |path| == 0 || path[|path| - 1] != '/' {
        path := path + "/";
      }
      this.rootPath := path;
      this.rootNamespace := Split(rootNamespace, '\\');
      givenNamespace := rootNamespace;
      this.autoload := autoload;
      registered := false;
    }

    /** `getRootNamespace`: the namespace string given to the constructor. */
    method GetRootNamespace() returns (r: string)
      requires Valid()
      ensures r == givenNamespace
    {
      r := Join(rootNamespace, "\\");
      RootNamespaceRoundTrip(givenNamespace);
    }

    /** `register`. */
    method Register()
      modifies this`registered, autoload`loaders
      ensures Hook(registered, autoload.loaders) == AfterRegister(old(Hook(registered, autoload.loaders)), this)
    {
      if !registered {
        autoload.loaders := autoload.loaders + [this];
        registered := true;
      }
    }

    /** `unregister`. */
    method Unregister()
      modifies this`registered, autoload`loaders
      ensures Hook(registered, autoload.loaders) == AfterUnregister(old(Hook(registered, autoload.loaders)), this)
    {
      if registered {
        autoload.loaders := Without(autoload.loaders, this);
        registered := false;
      }
    }

    /**
     * `loadClass`: shifts the name's parts against the root namespace and
     * answers the file to require, or None when a part does not match.
     */
    method LoadClass(name: string) returns (path: Option<string>)
      ensures path == Candidate(rootPath, rootNamespace, name)
    {
      var parts := Split(name, '\\');
      ghost var all := parts;
      var i := 0;
      while i < |rootNamespace|
        invariant 0 <= i <= |rootNamespace|
        invariant parts == Rest(all, i)
        invariant forall k | 0 <= k < i :: LooseEq(Shift(all, k), rootNamespace[k])
      {
        var head := if |parts| > 0 then Some(parts[0]) else None;
        parts := if |parts| > 0 then parts[1..] else [];
        if !LooseEq(head, rootNamespace[i]) {
          return None;
        }
        i := i + 1;
      }
      path := Some(rootPath + Join(parts, "/") + ".php");
    }
  }
}
