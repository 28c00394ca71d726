/**
 * Mvc: the request router. `handleRequest` matches PATH_INFO against
 * ^/(\w*)(/(\w+)(\.\w+)?)?$ to pick a controller and an action, defaulting
 * both when a segment is absent or falsy, and then loads the controller's
 * file, falling back to the index controller.
 */
module Routing {
  import opened Php

  /** PCRE's \w without the u modifier: ASCII letters, digits and "_". */
  predicate IsWord(ch: char)
  {
    ('a' <= ch <= 'z') || ('A' <= ch <= 'Z') || ('0' <= ch <= '9') || ch == '_'
  }

  /** Every character is a word character. */
  predicate Word(s: string)
  {
    forall i | 0 <= i < |s| :: IsWord(s[i])
  }

  /** What `$` accepts at the end: nothing, or one final newline. */
  predicate AtEnd(s: string)
  {
    |s| == 0 || (|s| == 1 && s[0] == '\n')
  }

  /** The length of the longest run of word characters at the front. */
  function WordSpan(s: string): (n: nat)
    ensures n <= |s|
  {
    if |s| == 0 || !IsWord(s[0]) then 0 else 1 + WordSpan(s[1..])
  }

  /** The span is a word and stops at a non-word character or at the end. */
  lemma {:induction false} WordSpanMeaning(s: string)
    ensures var n := WordSpan(s);
      Word(s[..n]) && (n == |s| || !IsWord(s[n]))
  {
    if |s| > 0 && IsWord(s[0]) {
      WordSpanMeaning(s[1..]);
      var k := WordSpan(s[1..]);
      assert s[..1 + k] == [s[0]] + s[1..][..k];
    }
  }

  /** The optional extension group followed by `$`: "." and a word, then at most a newline. */
  predicate ExtensionEnd(u: string)
  {
    |u| > 0 && u[0] == '.' && WordSpan(u[1..]) > 0 && AtEnd(u[1..][WordSpan(u[1..])..])
  }

  /** Group 3 after the "/", when the rest of the path lets the whole pattern match. */
  function Action(t: string): Option<string>
  {
    var m := WordSpan(t);
    if m > 0 && (AtEnd(t[m..]) || ExtensionEnd(t[m..])) then Some(t[..m]) else None
  }

  /**
   * The regular expression's captures: group 1, and group 3 when the
   * optional second segment took part; None when the path does not match.
   */
  function Parse(path: string): Option<(string, Option<string>)>
  {
    if |path| == 0 || path[0] != '/' then None else Segments(path[1..])
  }

  /** The captures for the text after the leading "/". */
  function Segments(rest: string): Option<(string, Option<string>)>
  {
    var n := WordSpan(rest);
    var r := rest[n..];
    if AtEnd(r) then Some((rest[..n], None))
    else if r[0] == '/' && Action(r[1..]).Some? then Some((rest[..n], Action(r[1..])))
    else None
  }

  /** The text the optional second group matches: "/" + action + extension, or nothing. */
  function Suffix(action: Option<string>, ext: string): string
  {
    if action.None? then "" else "/" + action.value + ext
  }

  /** What follows the leading "/": the controller, the optional second group and at most a newline. */
  function Tail(controller: string, action: Option<string>, ext: string, nl: string): string
  {
    controller + (Suffix(action, ext) + nl)
  }

  /** The path "/" + controller + suffix + newline. */
  function PathOf(controller: string, action: Option<string>, ext: string, nl: string): string
  {
    "/" + Tail(controller, action, ext, nl)
  }

  /** The pieces of a path the pattern accepts: the segments are words, the action is not empty, the extension is "." and a word. */
  predicate WellFormed(controller: string, action: Option<string>, ext: string)
  {
    Word(controller) &&
    (action.None? ==> ext == "") &&
    (action.Some? ==> |action.value| > 0 && Word(action.value) && (ext == "" || (|ext| > 1 && ext[0] == '.' && Word(ext[1..]))))
  }

  /** A word followed by a non-word character, or by nothing, spans exactly the word. */
  lemma {:induction false} WordSpanOf(w: string, t: string)
    requires Word(w) && (t == [] || !IsWord(t[0]))
    ensures WordSpan(w + t) == |w|
  {
    if |w| > 0 {
      assert (w + t)[1..] == w[1..] + t;
      WordSpanOf(w[1..], t);
    } else {
      assert w + t == t;
    }
  }

  /** The action, its extension and the end of the path give back the action. */
  lemma ActionComplete(a: string, ext: string, nl: string)
    requires |a| > 0 && Word(a) && AtEnd(nl)
    requires ext == "" || (|ext| > 1 && ext[0] == '.' && Word(ext[1..]))
    ensures Action(a + ext + nl) == Some(a)
  {
    var t := a + ext + nl;
    assert t == a + (ext + nl);
    WordSpanOf(a, ext + nl);
    assert t[..|a|] == a && t[|a|..] == ext + nl;
    if ext != "" {
      var u := ext + nl;
      var v := ext[1..];
      assert u[0] == '.' && u[1..] == v + nl;
      WordSpanOf(v, nl);
      assert (v + nl)[|v|..] == nl;
      assert ExtensionEnd(u);
    } else {
      assert ext + nl == nl;
    }
  }

  /** The text after the leading "/" of a well-formed path gives back its pieces. */
  lemma SegmentsComplete(controller: string, action: Option<string>, ext: string, nl: string)
    requires WellFormed(controller, action, ext) && AtEnd(nl)
    ensures Segments(Tail(controller, action, ext, nl)) == Some((controller, action))
  {
    var r := Suffix(action, ext) + nl;
    var rest := controller + r;
    assert rest == Tail(controller, action, ext, nl);
    WordSpanOf(controller, r);
    assert rest[..|controller|] == controller && rest[|controller|..] == r;
    if action.Some? {
      SuffixComplete(action.value, ext, nl);
    } else {
      assert r == nl;
    }
  }

  /** After the controller, "/" + action + extension + newline is the optional group and the end. */
  lemma SuffixComplete(a: string, ext: string, nl: string)
    requires |a| > 0 && Word(a) && AtEnd(nl)
    requires ext == "" || (|ext| > 1 && ext[0] == '.' && Word(ext[1..]))
    ensures var r := Suffix(Some(a), ext) + nl;
      |r| > 0 && r[0] == '/' && !AtEnd(r) && Action(r[1..]) == Some(a)
  {
    var r := Suffix(Some(a), ext) + nl;
    assert r == "/" + (a + ext + nl);
    assert r[1..] == a + ext + nl;
    ActionComplete(a, ext, nl);
  }

  /** Every path built from well-formed pieces matches, with those captures. */
  lemma ParseComplete(controller: string, action: Option<string>, ext: string, nl: string)
    requires WellFormed(controller, action, ext) && AtEnd(nl)
    ensures Parse(PathOf(controller, action, ext, nl)) == Some((controller, action))
  {
    assert PathOf(controller, action, ext, nl)[1..] == Tail(controller, action, ext, nl);
    SegmentsComplete(controller, action, ext, nl);
  }

  /** A captured action comes from a word, an optional extension and the end of the path. */
  lemma ActionSound(t: string) returns (ext: string, nl: string)
    requires Action(t).Some?
    ensures var a := Action(t).value;
      |a| > 0 && Word(a) && AtEnd(nl) && (ext == "" || (|ext| > 1 && ext[0] == '.' && Word(ext[1..]))) && t == a + ext + nl
  {
    var m := WordSpan(t);
    var a, u := t[..m], t[m..];
    assert Word(a) by {
      WordSpanMeaning(t);
    }
    assert t == a + u;
    if AtEnd(u) {
      ext, nl := "", u;
      assert t == a + ext + nl;
    } else {
      ext, nl := ExtensionSound(u);
      assert t == a + ext + nl;
    }
  }

  /** A matched extension group is "." and a word, followed by the end. */
  lemma ExtensionSound(u: string) returns (ext: string, nl: string)
    requires ExtensionEnd(u)
    ensures |ext| > 1 && ext[0] == '.' && Word(ext[1..]) && AtEnd(nl) && u == ext + nl
  {
    var v := u[1..];
    var k := WordSpan(v);
    ext, nl := u[..1 + k], v[k..];
    assert ext[1..] == v[..k];
    assert Word(v[..k]) by {
      WordSpanMeaning(v);
    }
    assert u == ext + nl;
  }

  /** A match of the text after the leading "/" comes from well-formed pieces. */
  lemma SegmentsSound(rest: string) returns (ext: string, nl: string)
    requires Segments(rest).Some?
    ensures var m := Segments(rest).value;
      WellFormed(m.0, m.1, ext) && AtEnd(nl) && rest == Tail(m.0, m.1, ext, nl)
  {
    var n := WordSpan(rest);
    var c := rest[..n];
    var r := rest[n..];
    assert Word(c) by {
      WordSpanMeaning(rest);
    }
    assert rest == c + r;
    if AtEnd(r) {
      ext, nl := "", r;
      assert Segments(rest).value == (c, None);
      assert Suffix(None, "") + r == r;
    } else {
      var a := Action(r[1..]).value;
      assert Segments(rest).value == (c, Some(a));
      ext, nl := ActionSound(r[1..]);
      SuffixSound(r, a, ext, nl);
    }
  }

  /** A "/" followed by the action, its extension and the end is the optional group and the end. */
  lemma SuffixSound(r: string, a: string, ext: string, nl: string)
    requires |r| > 0 && r[0] == '/' && r[1..] == a + ext + nl
    ensures r == Suffix(Some(a), ext) + nl
  {
    assert r == "/" + r[1..];
  }

  /** Every match comes from well-formed pieces: the path is "/", the controller, the suffix and at most a newline. */
  lemma ParseSound(path: string) returns (ext: string, nl: string)
    requires Parse(path).Some?
    ensures var m := Parse(path).value;
      WellFormed(m.0, m.1, ext) && AtEnd(nl) && path == PathOf(m.0, m.1, ext, nl)
  {
    ext, nl := SegmentsSound(path[1..]);
    assert path == "/" + path[1..];
  }

  /** A third segment never matches. */
  lemma ExtraSegmentRejected(controller: string, action: string, more: string)
    requires Word(controller) && Word(action)
    ensures Parse("/" + controller + "/" + action + "/" + more) == None
  {
    var path := "/" + controller + "/" + action + "/" + more;
    var rest := path[1..];
    assert rest == controller + ("/" + action + "/" + more);
    WordSpanOf(controller, "/" + action + "/" + more);
    var r := rest[|controller|..];
    assert r == "/" + action + "/" + more;
    assert r[1..] == action + ("/" + more);
    WordSpanOf(action, "/" + more);
    assert r[1..][|action|..] == "/" + more;
    assert !AtEnd("/" + more) && !ExtensionEnd("/" + more);
  }

  /** The controller and the action `handleRequest` settles on; a missing PATH_INFO counts as "/". */
  function Route(pathInfo: Option<string>, index: string): (string, string)
  {
    var path := if pathInfo.Some? then pathInfo.value else "/";
    var m := Parse(path);
    if m.Some? then
      var (c, a) := m.value;
      (if !Empty(c) then c else index, if a.Some? && !Empty(a.value) then a.value else "index")
    else (index, "index")
  }

  /**
   * A matching path routes to its segments, and a segment that is absent,
   * empty or "0" gives way to the index controller or the "index" action:
   * "/C" gives (C, index), "/C/a" and "/C/a.ext" give (C, a), "//a" gives
   * the index controller with action a.
   */
  lemma RouteSegments(controller: string, action: Option<string>, ext: string, nl: string, index: string)
    requires WellFormed(controller, action, ext) && AtEnd(nl)
    ensures Route(Some(PathOf(controller, action, ext, nl)), index)
      == (if !Empty(controller) then controller else index,
          if action.Some? && action.value != "0" then action.value else "index")
  {
    ParseComplete(controller, action, ext, nl);
  }

  /** No PATH_INFO, "/" and any path the pattern rejects all go to the index controller's "index" action. */
  lemma RouteDefaults(path: string, index: string)
    ensures Route(None, index) == (index, "index")
    ensures Route(Some("/"), index) == (index, "index")
    ensures Parse(path).None? ==> Route(Some(path), index) == (index, "index")
  {
    ParseComplete("", None, "", "");
    assert "/" + "" + Suffix(None, "") + "" == "/";
  }

  /** The file a controller lives in. */
  function ControllerFile(root: string, name: string): string
  {
    root + "Controllers/" + name + "Controller.php"
  }

  /** The class a controller file defines. */
  function ControllerClass(ns: string, name: string): string
  {
    ns + "\\Controllers\\" + name + "Controller"
  }

  /** What is required and whose `getInstance` is called. */
  datatype Load = Load(file: string, className: string)

  function NoIndex(index: string): string
  {
    "Could not find index controller " + index + "!"
  }

  /**
   * Loading as written: the fallback checks the configured index
   * controller's file but requires IndexController.php and instantiates
   * IndexController, whatever the index controller is set to.
   */
  function LoadAsWritten(files: set<string>, root: string, ns: string, index: string, name: string): Result<Load, string>
  {
    if ControllerFile(root, name) in files then Ok(Load(ControllerFile(root, name), ControllerClass(ns, name)))
    else if ControllerFile(root, index) in files then Ok(Load(root + "Controllers/IndexController.php", ns + "\\Controllers\\IndexController"))
    else Err(NoIndex(index))
  }

  /** Loading as intended: the fallback loads the index controller it checked for. */
  function LoadController(files: set<string>, root: string, ns: string, index: string, name: string): (r: Result<Load, string>)
    ensures r.Ok? ==> r.value.file in files
    ensures r.Ok? <==> ControllerFile(root, name) in files || ControllerFile(root, index) in files
    ensures r.Ok? ==>
      r.value == Load(ControllerFile(root, name), ControllerClass(ns, name)) ||
      r.value == Load(ControllerFile(root, index), ControllerClass(ns, index))
    ensures r.Err? ==> r.error == NoIndex(index)
  {
    if ControllerFile(root, name) in files then Ok(Load(ControllerFile(root, name), ControllerClass(ns, name)))
    else if ControllerFile(root, index) in files then Ok(Load(ControllerFile(root, index), ControllerClass(ns, index)))
    else Err(NoIndex(index))
  }

  /** Different controller names have different files. */
  lemma ControllerFileInjective(root: string, a: string, b: string)
    ensures ControllerFile(root, a) == ControllerFile(root, b) ==> a == b
  {
    var p := root + "Controllers/";
    var fa := ControllerFile(root, a);
    var fb := ControllerFile(root, b);
    if fa == fb {
      assert fa == p + (a + "Controller.php") && fb == p + (b + "Controller.php");
      assert fa[|p|..] == a + "Controller.php" && fb[|p|..] == b + "Controller.php";
      assert a == (a + "Controller.php")[..|a|];
      assert b == (b + "Controller.php")[..|b|];
    }
  }

  /**
   * With an index controller other than "Index", a request for a missing
   * controller makes the code as written require IndexController.php, a
   * file it never checked for; the intended loading requires the index
   * controller's own file.
   */
  lemma AsWrittenFallbackWrong(files: set<string>, root: string, ns: string, index: string, name: string)
    requires index != "Index"
    requires ControllerFile(root, name) !in files && ControllerFile(root, index) in files
    ensures LoadAsWritten(files, root, ns, index, name).value.file != ControllerFile(root, index)
    ensures LoadController(files, root, ns, index, name).value == Load(ControllerFile(root, index), ControllerClass(ns, index))
  {
    assert root + "Controllers/IndexController.php" == ControllerFile(root, "Index");
    ControllerFileInjective(root, "Index", index);
  }

  /** With the default index controller both versions load the same. */
  lemma DefaultIndexAgrees(files: set<string>, root: string, ns: string, name: string)
    ensures LoadAsWritten(files, root, ns, "Index", name) == LoadController(files, root, ns, "Index", name)
  {
    assert root + "Controllers/IndexController.php" == ControllerFile(root, "Index");
    assert ns + "\\Controllers\\IndexController" == ControllerClass(ns, "Index");
  }

  /** The static settings of the router. */
  class Mvc {
    var documentRoot: string
    var indexController: string
    var projectNamespace: string

    /** The defaults: "../../", "Index" and the empty namespace. */
    constructor ()
      ensures documentRoot == "../../" && indexController == "Index" && projectNamespace == ""
    {
      documentRoot := "../../";
      indexController := "Index";
      projectNamespace := "";
    }

    /** `setDocumentRoot`: stores the root with exactly one "/" added when it lacks one. */
    method SetDocumentRoot(root: string)
      modifies this`documentRoot
      ensures documentRoot == WithTrailingSlash(root)
    {
      documentRoot := root;
      if |root| == 0 || root[|root| - 1] != '/' {
        documentRoot := documentRoot + "/";
      }
    }

    /** `setIndexController`. */
    method SetIndexController(name: string)
      modifies this`indexController
      ensures indexController == name
    {
      indexController := name;
    }

    /** `setProjectNamespace`. */
    method SetProjectNamespace(ns: string)
      modifies this`projectNamespace
      ensures projectNamespace == ns
    {
      projectNamespace := ns;
    }

    /**
     * `handleRequest` up to the controller call: the controller to load,
     * with the intended fallback, and the action method to call on it.
     */
    method HandleRequest(pathInfo: Option<string>, files: set<string>) returns (r: Result<(Load, string), string>)
      ensures var (c, a) := Route(pathInfo, indexController);
        var load := LoadController(files, documentRoot, projectNamespace, indexController, c);
        r == if load.Ok? then Ok((load.value, a + "Action")) else Err(load.error)
    {
      var (c, a) := Route(pathInfo, indexController);
      var load := LoadController(files, documentRoot, projectNamespace, indexController, c);
      if load.Err? {
        return Err(load.error);
      }
      r := Ok((load.value, a + "Action"));
    }
  }
}
