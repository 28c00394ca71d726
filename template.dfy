/**
 * Template: text with `%name%` placeholders and, per placeholder, an
 * ordered list of subtemplates. Rendering fills every placeholder, in the
 * order the placeholders were first added, with the renderings of its
 * subtemplates, each followed by a newline, and rewrites the template's
 * own text in doing so.
 *
 * Subtemplates are held as values: a snapshot of their text and their own
 * subtemplates at the time they are added.
 */
module Templates {
  import opened Php

  /** `str_replace` with one search string: every non-overlapping occurrence, left to right; an empty search string changes nothing. */
  function ReplaceAll(s: string, pat: string, rep: string): string
    decreases |s|
  {
    if |pat| == 0 || |s| < |pat| then s
    else if s[..|pat|] == pat then rep + ReplaceAll(s[|pat|..], pat, rep)
    else [s[0]] + ReplaceAll(s[1..], pat, rep)
  }

  /** Whether `pat` occurs in `s` starting at index `i`. */
  predicate At(s: string, pat: string, i: nat)
  {
    i + |pat| <= |s| && s[i..i + |pat|] == pat
  }

  /** Text containing no occurrence of the pattern is returned unchanged. */
  lemma {:induction false} ReplaceAbsent(s: string, pat: string, rep: string)
    requires |pat| > 0 && forall i: nat | i < |s| :: !At(s, pat, i)
    ensures ReplaceAll(s, pat, rep) == s
    decreases |s|
  {
    if |s| >= |pat| {
      assert !At(s, pat, 0);
      forall i: nat | i < |s[1..]|
        ensures !At(s[1..], pat, i)
      {
        assert !At(s, pat, i + 1);
        assert At(s[1..], pat, i) == At(s, pat, i + 1) by {
          if i + 1 + |pat| <= |s| {
            assert s[1..][i..i + |pat|] == s[i + 1..i + 1 + |pat|];
          }
        }
      }
      ReplaceAbsent(s[1..], pat, rep);
    }
  }

  /** Replacing a pattern by itself is the identity. */
  lemma {:induction false} ReplaceSelf(s: string, pat: string)
    ensures ReplaceAll(s, pat, pat) == s
    decreases |s|
  {
    if |pat| > 0 && |s| >= |pat| {
      if s[..|pat|] == pat {
        ReplaceSelf(s[|pat|..], pat);
        assert s == s[..|pat|] + s[|pat|..];
      } else {
        ReplaceSelf(s[1..], pat);
        assert s == [s[0]] + s[1..];
      }
    }
  }

  /** Text free of the pattern's first character passes through untouched. */
  lemma {:induction false} ReplacePassesFree(x: string, y: string, pat: string, rep: string)
    requires |pat| > 0 && forall i | 0 <= i < |x| :: x[i] != pat[0]
    ensures ReplaceAll(x + y, pat, rep) == x + ReplaceAll(y, pat, rep)
    decreases |x|
  {
    if |x| > 0 {
      var s := x + y;
      assert s[0] == x[0] && s[1..] == x[1..] + y;
      ReplaceSkip(s, pat, rep);
      ReplacePassesFree(x[1..], y, pat, rep);
      assert [x[0]] + (x[1..] + ReplaceAll(y, pat, rep)) == ([x[0]] + x[1..]) + ReplaceAll(y, pat, rep);
      assert [x[0]] + x[1..] == x;
    } else {
      assert x + y == y;
    }
  }

  /** A first character that does not start the pattern is kept, and the rest is processed. */
  lemma ReplaceSkip(s: string, pat: string, rep: string)
    requires |pat| > 0 && |s| > 0 && s[0] != pat[0]
    ensures ReplaceAll(s, pat, rep) == [s[0]] + ReplaceAll(s[1..], pat, rep)
  {
    if |s| >= |pat| {
      assert s[..|pat|][0] == s[0];
    } else {
      assert ReplaceAll(s[1..], pat, rep) == s[1..];
      assert s == [s[0]] + s[1..];
    }
  }

  /**
   * A placeholder preceded only by text free of the delimiter is replaced
   * by the content, and the rest of the text is processed after it.
   */
  lemma ReplaceFirstToken(x: string, pat: string, y: string, rep: string)
    requires |pat| > 0 && forall i | 0 <= i < |x| :: x[i] != pat[0]
    ensures ReplaceAll(x + pat + y, pat, rep) == x + rep + ReplaceAll(y, pat, rep)
  {
    ReplacePassesFree(x, pat + y, pat, rep);
    assert (pat + y)[..|pat|] == pat;
    assert (pat + y)[|pat|..] == y;
    assert x + pat + y == x + (pat + y);
  }

  /** The search string `fill` builds: the delimiter, the name, the delimiter. */
  function Token(ch: string, name: string): string
  {
    ch + name + ch
  }

  /** A subtemplate as a value: its text and its own placeholders' subtemplates. */
  datatype Tree = Tree(data: string, subs: seq<Slot>)

  /** One entry of the `subs` array: a placeholder and its subtemplates, in the order they were added. */
  datatype Slot = Slot(name: string, templates: seq<Tree>)

  /** `__toString` of a subtemplate. */
  function Render(t: Tree, ch: string): string
    decreases t, 1
  {
    FillSlots(t.data, t.subs, ch)
  }

  /** The text filled in for one placeholder: each subtemplate's rendering followed by "\n". */
  function Joined(ts: seq<Tree>, ch: string): string
    decreases ts
  {
    if |ts| == 0 then "" else Joined(ts[..|ts| - 1], ch) + Render(ts[|ts| - 1], ch) + "\n"
  }

  /** The `foreach` over the placeholders: each one fills the text left by the previous ones. */
  function FillSlots(data: string, slots: seq<Slot>, ch: string): string
    decreases slots
  {
    if |slots| == 0 then data
    else
      var last := slots[|slots| - 1];
      ReplaceAll(FillSlots(data, slots[..|slots| - 1], ch), Token(ch, last.name), Joined(last.templates, ch))
  }

  /** Adding subtemplates appends their renderings to the placeholder's content. */
  lemma {:induction false} JoinedAppend(ts: seq<Tree>, us: seq<Tree>, ch: string)
    ensures Joined(ts + us, ch) == Joined(ts, ch) + Joined(us, ch)
    decreases |us|
  {
    if |us| > 0 {
      var init := us[..|us| - 1];
      JoinedAppend(ts, init, ch);
      assert (ts + us)[..|ts + us| - 1] == ts + init;
      assert (ts + us)[|ts + us| - 1] == us[|us| - 1];
    } else {
      assert ts + us == ts;
    }
  }

  /** The position of the placeholder's entry, if it has one. */
  function Find(slots: seq<Slot>, name: string): (r: Option<nat>)
    ensures r.None? <==> forall i | 0 <= i < |slots| :: slots[i].name != name
    ensures r.Some? ==> r.value < |slots| && slots[r.value].name == name
    ensures r.Some? ==> forall i | 0 <= i < r.value :: slots[i].name != name
  {
    if |slots| == 0 then None
    else if slots[0].name == name then Some(0)
    else
      var rest := Find(slots[1..], name);
      if rest.Some? then Some(rest.value + 1) else None
  }

  /** The placeholder's subtemplates; none when it has no entry. */
  function Subs(slots: seq<Slot>, name: string): seq<Tree>
  {
    var i := Find(slots, name);
    if i.Some? then slots[i.value].templates else []
  }

  /** Assigning `subs[name]`: an existing entry keeps its position, a new one goes last. */
  function Store(slots: seq<Slot>, name: string, ts: seq<Tree>): seq<Slot>
  {
    var i := Find(slots, name);
    if i.Some? then slots[i.value := Slot(name, ts)] else slots + [Slot(name, ts)]
  }

  /** The entry found is the first one with the name, wherever that is. */
  lemma {:induction false} FindFirst(slots: seq<Slot>, name: string, k: nat)
    requires k < |slots| && slots[k].name == name
    requires forall i | 0 <= i < k :: slots[i].name != name
    ensures Find(slots, name) == Some(k)
  {
    if k > 0 {
      FindFirst(slots[1..], name, k - 1);
    }
  }

  /** After assigning a placeholder's list, that placeholder reads the new list. */
  lemma StoreSubs(slots: seq<Slot>, name: string, ts: seq<Tree>)
    ensures Subs(Store(slots, name, ts), name) == ts
    ensures Find(slots, name).Some? ==> |Store(slots, name, ts)| == |slots|
    ensures Find(slots, name).None? ==> Store(slots, name, ts) == slots + [Slot(name, ts)]
  {
    var r := Store(slots, name, ts);
    var k := if Find(slots, name).Some? then Find(slots, name).value else |slots|;
    assert forall i | 0 <= i < k :: r[i] == slots[i];
    FindFirst(r, name, k);
  }

  /** Assigning one placeholder's list leaves every other placeholder's list and every position's name as it was. */
  lemma StoreKeepsOthers(slots: seq<Slot>, name: string, ts: seq<Tree>, other: string)
    requires other != name
    ensures Subs(Store(slots, name, ts), other) == Subs(slots, other)
    ensures forall i | 0 <= i < |slots| :: Store(slots, name, ts)[i].name == slots[i].name
  {
    var r := Store(slots, name, ts);
    assert forall i | 0 <= i < |slots| :: r[i].name == slots[i].name;
    var a := Find(slots, other);
    if a.Some? {
      FindFirst(r, other, a.value);
    } else {
      assert forall i | 0 <= i < |r| :: r[i].name != other;
    }
  }

  /**
   * After `add`, the placeholder's content on rendering is its previous
   * content followed by the new subtemplate's rendering and a newline.
   */
  lemma AddAppendsRendering(slots: seq<Slot>, name: string, t: Tree, ch: string)
    ensures Joined(Subs(Store(slots, name, Subs(slots, name) + [t]), name), ch)
      == Joined(Subs(slots, name), ch) + Render(t, ch) + "\n"
  {
    StoreSubs(slots, name, Subs(slots, name) + [t]);
    JoinedAppend(Subs(slots, name), [t], ch);
    assert [t][..0] == [];
  }

  /**
   * A placeholder whose list is empty, as `getSubs` and `purge` leave it,
   * is erased from the text on rendering.
   */
  lemma EmptySlotErases(data: string, slots: seq<Slot>, name: string, ch: string)
    ensures FillSlots(data, slots + [Slot(name, [])], ch) == ReplaceAll(FillSlots(data, slots, ch), Token(ch, name), "")
  {
    assert (slots + [Slot(name, [])])[..|slots|] == slots;
  }

  /** The delimiter shared by all templates, as the class's static field is. */
  class Delimiter {
    var ch: string

    /** It starts as "%". */
    constructor ()
      ensures ch == "%"
    {
      ch := "%";
    }

    /** `setPlaceholderChar`: every template reads the new delimiter from then on. */
    method SetPlaceholderChar(c: string)
      modifies this
      ensures ch == c
    {
      ch := c;
    }
  }

  /** A template object: its text, its subtemplates by placeholder, and the shared delimiter. */
  class Template {
    const delimiter: Delimiter
    var data: string
    var subs: seq<Slot>

    /** The string template's constructor: the given text and no subtemplates. */
    constructor (delimiter: Delimiter, text: string)
      ensures this.delimiter == delimiter && data == text && subs == []
    {
      this.delimiter := delimiter;
      data := text;
      subs := [];
    }

    /** This template as a value. */
    function AsTree(): Tree
      reads this
    {
      Tree(data, subs)
    }

    /** `fill`: replaces every delimited occurrence of the name by the content. */
    method Fill(name: string, content: string)
      modifies this`data
      ensures data == ReplaceAll(old(data), Token(delimiter.ch, name), content)
    {
      data := ReplaceAll(data, delimiter.ch + name + delimiter.ch, content);
    }

    /** `add`: appends the subtemplate to the placeholder's list, creating the list if needed, and returns it. */
    method Add(name: string, t: Tree) returns (r: Tree)
      modifies this`subs
      ensures r == t && subs == Store(old(subs), name, Subs(old(subs), name) + [t])
    {
      var i := Find(subs, name);
      if i.None? {
        subs := subs + [Slot(name, [])];
        i := Some(|subs| - 1);
      }
      subs := subs[i.value := Slot(name, subs[i.value].templates + [t])];
      r := t;
    }

    /** `purge`: the placeholder's list becomes empty. */
    method Purge(name: string)
      modifies this`subs
      ensures subs == Store(old(subs), name, [])
    {
      subs := Store(subs, name, []);
    }

    /** `getSubs`: the placeholder's list, created empty when absent. */
    method GetSubs(name: string) returns (r: seq<Tree>)
      modifies this`subs
      ensures r == Subs(old(subs), name)
      ensures subs == Store(old(subs), name, r)
    {
      var i := Find(subs, name);
      if i.None? {
        subs := subs + [Slot(name, [])];
        r := [];
      } else {
        r := subs[i.value].templates;
        assert subs[i.value := Slot(name, r)] == subs;
      }
    }

    /** `__toString`: fills each placeholder in turn, then returns the rewritten text. */
    method ToString() returns (s: string)
      modifies this`data
      ensures data == FillSlots(old(data), subs, delimiter.ch) && s == data
    {
      var i := 0;
      while i < |subs|
        invariant 0 <= i <= |subs|
        invariant data == FillSlots(old(data), subs[..i], delimiter.ch)
      {
        var ts := subs[i].templates;
        var content := "";
        var j := 0;
        while j < |ts|
          invariant 0 <= j <= |ts|
          invariant content == Joined(ts[..j], delimiter.ch)
        {
          content := content + Render(ts[j], delimiter.ch) + "\n";
          j := j + 1;
          assert ts[..j][..j - 1] == ts[..j - 1];
        }
        assert ts[..j] == ts;
        Fill(subs[i].name, content);
        i := i + 1;
        assert subs[..i][..i - 1] == subs[..i - 1];
      }
      assert subs[..i] == subs;
      s := data;
    }
  }
}
