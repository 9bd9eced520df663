/**
  The code editor's tab strip (CodeSection): an ordered list of open file ids
  and the active file id kept in the application state. Selecting a file opens
  it at the end of the strip if it is not open yet; closing a tab removes it
  and, when it was the active one, hands the focus to the last remaining tab.
 */
module EditorTabs {
  import opened Wrappers
  import opened FileTree
  import Seed

  /** The open tabs, in strip order, and the active file (`null` is None). */
  datatype Session = Session(open: seq<Id>, active: Option<Id>)

  /** The strip starts with the application context open and active. */
  const Initial: Session := Session([Seed.InitialActive], Some(Seed.InitialActive))

  predicate NoDuplicates(s: seq<Id>) {
    forall i, j | 0 <= i < j < |s| :: s[i] != s[j]
  }

  /** The two facts every reachable session keeps: no tab twice, and the active file is a tab. */
  predicate Valid(t: Session) {
    && NoDuplicates(t.open)
    && (t.active.Some? ==> t.active.value in t.open)
  }

  /** The last entry of a list, if any. */
  function Last(s: seq<Id>): (r: Option<Id>)
    ensures r.None? <==> |s| == 0
    ensures r.Some? ==> r.value == s[|s| - 1]
  {
    if |s| == 0 then None else Some(s[|s| - 1])
  }

  /** `filter(id => id !== x)`: every other entry, in the same order. */
  function Remove(s: seq<Id>, x: Id): (r: seq<Id>)
    ensures x !in r
    ensures forall y | y in r :: y in s
    ensures forall y | y in s && y != x :: y in r
    ensures |r| <= |s|
  {
    if |s| == 0 then []
    else if s[0] == x then Remove(s[1..], x)
    else [s[0]] + Remove(s[1..], x)
  }

  /** Removing an entry that is not there changes nothing. */
  lemma {:induction false} RemoveAbsent(s: seq<Id>, x: Id)
    requires x !in s
    ensures Remove(s, x) == s
  {
    if |s| > 0 {
      RemoveAbsent(s[1..], x);
    }
  }

  /** One step of the filter. */
  lemma RemoveCons(x: Id, s: seq<Id>, y: Id)
    ensures Remove([x] + s, y) == if x == y then Remove(s, y) else [x] + Remove(s, y)
  {
    assert ([x] + s)[1..] == s;
  }

  /** Removing distributes over concatenation. */
  lemma {:induction false} RemoveAppend(a: seq<Id>, b: seq<Id>, x: Id)
    ensures Remove(a + b, x) == Remove(a, x) + Remove(b, x)
  {
    if |a| == 0 {
      assert a + b == b;
    } else {
      assert (a + b)[1..] == a[1..] + b;
      RemoveAppend(a[1..], b, x);
    }
  }

  /** The others keep their relative order: removing the one occurrence at position `i`
      leaves exactly the entries before it followed by the entries after it. */
  lemma {:induction false} RemoveKeepsOrder(s: seq<Id>, i: nat)
    requires NoDuplicates(s) && i < |s|
    ensures Remove(s, s[i]) == s[..i] + s[i + 1..]
    decreases i
  {
    var x := s[i];
    if i == 0 {
      HeadNotInTail(s);
      RemoveAbsent(s[1..], x);
    } else {
      TailNoDuplicates(s);
      assert s[1..][i - 1] == x;
      RemoveKeepsOrder(s[1..], i - 1);
      assert [s[0]] + s[1..][..i - 1] == s[..i];
      assert s[1..][i..] == s[i + 1..];
    }
  }

  /** The tail of a list without duplicates has none. */
  lemma TailNoDuplicates(s: seq<Id>)
    requires NoDuplicates(s) && |s| > 0
    ensures NoDuplicates(s[1..])
  {
    forall i, j | 0 <= i < j < |s| - 1
      ensures s[1..][i] != s[1..][j]
    {
      assert s[1..][i] == s[i + 1] && s[1..][j] == s[j + 1];
    }
  }

  /** The head of a list without duplicates does not occur again. */
  lemma HeadNotInTail(s: seq<Id>)
    requires NoDuplicates(s) && |s| > 0
    ensures s[0] !in s[1..]
  {
    forall k | 0 <= k < |s| - 1
      ensures s[1..][k] != s[0]
    {
      assert s[1..][k] == s[k + 1];
    }
  }

  /** Removing keeps a list free of duplicates. */
  lemma {:induction false} RemoveNoDuplicates(s: seq<Id>, x: Id)
    requires NoDuplicates(s)
    ensures NoDuplicates(Remove(s, x))
  {
    if |s| > 0 {
      TailNoDuplicates(s);
      RemoveNoDuplicates(s[1..], x);
      HeadNotInTail(s);
    }
  }

  /** `handleFileSelect`: focus the file and append it to the strip unless it is open already. */
  function Select(t: Session, id: Id): (r: Session)
    ensures r.active == Some(id) && id in r.open
    ensures |t.open| <= |r.open| <= |t.open| + 1 && r.open[..|t.open|] == t.open
    ensures id in t.open <==> r.open == t.open
  {
    Session(if id in t.open then t.open else t.open + [id], Some(id))
  }

  /** `closeFile`: drop the tab; if it was the active one, focus the last remaining tab, or none. */
  function Close(t: Session, id: Id): (r: Session)
    ensures id !in r.open
    ensures forall y | y != id :: (y in r.open <==> y in t.open)
    ensures t.active == Some(id) ==> r.active == Last(r.open)
    ensures t.active != Some(id) ==> r.active == t.active
  {
    var remaining := Remove(t.open, id);
    Session(remaining, if t.active == Some(id) then Last(remaining) else t.active)
  }

  /** A click on a rendered tab focuses that file; only open files have a tab to click. */
  function ClickTab(t: Session, id: Id): (r: Session)
    requires id in t.open
    ensures r.open == t.open && r.active == Some(id)
  {
    Session(t.open, Some(id))
  }

  /** The start state satisfies the invariant. */
  lemma InitialValid()
    ensures Valid(Initial)
  {
  }

  /** Selecting keeps the invariant. */
  lemma SelectValid(t: Session, id: Id)
    requires Valid(t)
    ensures Valid(Select(t, id))
  {
    var r := Select(t, id);
    if id !in t.open {
      forall i, j | 0 <= i < j < |r.open|
        ensures r.open[i] != r.open[j]
      {
        if j == |t.open| {
          assert r.open[i] == t.open[i];
        }
      }
    }
  }

  /** Closing keeps the invariant. */
  lemma CloseValid(t: Session, id: Id)
    requires Valid(t)
    ensures Valid(Close(t, id))
  {
    RemoveNoDuplicates(t.open, id);
  }

  /** Clicking a tab keeps the invariant. */
  lemma ClickTabValid(t: Session, id: Id)
    requires Valid(t) && id in t.open
    ensures Valid(ClickTab(t, id))
  {
  }

  /** Re-selecting the open, active file changes nothing; a second select equals one. */
  lemma SelectIdempotent(t: Session, id: Id)
    ensures Select(Select(t, id), id) == Select(t, id)
  {
  }

  /** Closing twice is closing once. */
  lemma CloseIdempotent(t: Session, id: Id)
    ensures Close(Close(t, id), id) == Close(t, id)
  {
    var once := Close(t, id);
    RemoveAbsent(once.open, id);
  }

  /** Closing an id that is neither open nor active changes nothing. */
  lemma CloseUnrelated(t: Session, id: Id)
    requires id !in t.open && t.active != Some(id)
    ensures Close(t, id) == t
  {
    RemoveAbsent(t.open, id);
  }

  /** In a valid session, closing the tab at position `i` leaves the others in order;
      the focus moves to the last remaining tab exactly when the closed tab was active. */
  lemma CloseAt(t: Session, i: nat)
    requires Valid(t) && i < |t.open|
    ensures Close(t, t.open[i]).open == t.open[..i] + t.open[i + 1..]
    ensures t.active == Some(t.open[i]) ==> Close(t, t.open[i]).active == Last(t.open[..i] + t.open[i + 1..])
    ensures t.active != Some(t.open[i]) ==> Close(t, t.open[i]).active == t.active
  {
    RemoveKeepsOrder(t.open, i);
  }

  /** A user gesture on the editor. */
  datatype Event = SelectFile(id: Id) | CloseTab(id: Id) | ClickOn(id: Id)

  /** One gesture; a click on an id with no tab has nothing to land on. */
  function Step(t: Session, e: Event): Session {
    match e
    case SelectFile(id) => Select(t, id)
    case CloseTab(id) => Close(t, id)
    case ClickOn(id) => if id in t.open then ClickTab(t, id) else t
  }

  /** A sequence of gestures, applied in order. */
  function Run(t: Session, es: seq<Event>): Session
    decreases |es|
  {
    if |es| == 0 then t else Run(Step(t, es[0]), es[1..])
  }

  /** Every session reachable from the start keeps the invariant. */
  lemma {:induction false} RunValid(t: Session, es: seq<Event>)
    requires Valid(t)
    ensures Valid(Run(t, es))
    decreases |es|
  {
    if |es| > 0 {
      match es[0] {
        case SelectFile(id) => SelectValid(t, id);
        case CloseTab(id) => CloseValid(t, id);
        case ClickOn(id) => if id in t.open { ClickTabValid(t, id); }
      }
      RunValid(Step(t, es[0]), es[1..]);
    }
  }

  /** Selecting distinct, not yet open files opens them in selection order and focuses the last. */
  lemma {:induction false} SelectFresh(t: Session, ids: seq<Id>)
    requires |ids| > 0 && NoDuplicates(ids)
    requires forall k | 0 <= k < |ids| :: ids[k] !in t.open
    ensures Run(t, SelectAll(ids)) == Session(t.open + ids, Some(ids[|ids| - 1]))
    decreases |ids|
  {
    RunSelectAllCons(t, ids);
    if |ids| > 1 {
      FreshAfterFirst(t, ids);
      SelectFresh(Select(t, ids[0]), ids[1..]);
      Regroup(t.open, ids);
    } else {
      assert ids == [ids[0]] && SelectAll(ids[1..]) == [];
    }
  }

  lemma Regroup(a: seq<Id>, ids: seq<Id>)
    requires |ids| > 1
    ensures (a + [ids[0]]) + ids[1..] == a + ids
    ensures ids[1..][|ids| - 2] == ids[|ids| - 1]
  {
    assert ids == [ids[0]] + ids[1..];
  }

  lemma RunSelectAllCons(t: Session, ids: seq<Id>)
    requires |ids| > 0 && ids[0] !in t.open
    ensures Run(t, SelectAll(ids)) == Run(Select(t, ids[0]), SelectAll(ids[1..]))
    ensures Select(t, ids[0]).open == t.open + [ids[0]]
  {
    assert SelectAll(ids)[0] == SelectFile(ids[0]);
    assert SelectAll(ids)[1..] == SelectAll(ids[1..]);
  }

  /** After the first select, the remaining ids are still distinct and still unopened. */
  lemma FreshAfterFirst(t: Session, ids: seq<Id>)
    requires |ids| > 1 && NoDuplicates(ids)
    requires forall k | 0 <= k < |ids| :: ids[k] !in t.open
    ensures NoDuplicates(ids[1..])
    ensures forall k | 0 <= k < |ids[1..]| :: ids[1..][k] !in Select(t, ids[0]).open
  {
    forall k | 0 <= k < |ids[1..]|
      ensures ids[1..][k] !in Select(t, ids[0]).open
    {
      assert ids[1..][k] == ids[k + 1];
      assert ids[k + 1] != ids[0];
    }
    forall i, j | 0 <= i < j < |ids[1..]|
      ensures ids[1..][i] != ids[1..][j]
    {
      assert ids[1..][i] == ids[i + 1] && ids[1..][j] == ids[j + 1];
    }
  }

  /** One select gesture per id. */
  function SelectAll(ids: seq<Id>): (r: seq<Event>)
    ensures |r| == |ids| && forall k | 0 <= k < |ids| :: r[k] == SelectFile(ids[k])
  {
    seq(|ids|, k requires 0 <= k < |ids| => SelectFile(ids[k]))
  }

  /** The tabs the strip draws: open ids that resolve in the tree, in strip order; dangling ids are skipped. */
  function RenderedTabs(tree: seq<Node>, open: seq<Id>): (r: seq<Node>)
    ensures |r| <= |open|
    ensures forall k | 0 <= k < |r| :: r[k].id in open && Find(tree, r[k].id) == Some(r[k])
  {
    if |open| == 0 then []
    else
      var rest := RenderedTabs(tree, open[1..]);
      match Find(tree, open[0])
      case None => rest
      case Some(n) => [n] + rest
  }

  /** When every open id resolves, each gets its tab, in strip order. */
  lemma {:induction false} RenderedTabsExact(tree: seq<Node>, open: seq<Id>)
    requires forall id | id in open :: Find(tree, id).Some?
    ensures IdsOf(RenderedTabs(tree, open)) == open
  {
    if |open| > 0 {
      var n := Find(tree, open[0]).value;
      var rest := RenderedTabs(tree, open[1..]);
      assert IdsOf(rest) == open[1..] by {
        assert forall id | id in open[1..] :: id in open;
        RenderedTabsExact(tree, open[1..]);
      }
      RenderedTabsCons(tree, open);
      IdsOfAppend([n], rest);
      assert IdsOf([n]) == [open[0]];
      assert open == [open[0]] + open[1..];
    }
  }

  /** A resolving first id contributes the first tab. */
  lemma RenderedTabsCons(tree: seq<Node>, open: seq<Id>)
    requires |open| > 0 && Find(tree, open[0]).Some?
    ensures RenderedTabs(tree, open) == [Find(tree, open[0]).value] + RenderedTabs(tree, open[1..])
  {
  }

  /** A dangling id gets no tab, and only it is skipped: the strip is the one drawn for the
      other open ids. */
  lemma {:induction false} RenderedTabsSkipDangling(tree: seq<Node>, open: seq<Id>, id: Id)
    requires Find(tree, id).None?
    ensures id !in IdsOf(RenderedTabs(tree, open))
    ensures RenderedTabs(tree, open) == RenderedTabs(tree, Remove(open, id))
    decreases |open|
  {
    var r := RenderedTabs(tree, open);
    forall k | 0 <= k < |r|
      ensures IdsOf(r)[k] != id
    {
      assert Find(tree, r[k].id) == Some(r[k]);
    }
    if |open| > 0 {
      var x, rest := open[0], open[1..];
      assert open == [x] + rest;
      RenderedTabsSkipDangling(tree, rest, id);
      RemoveCons(x, rest, id);
      if x != id {
        var kept := Remove(open, id);
        assert kept == [x] + Remove(rest, id);
        assert kept[0] == x && kept[1..] == Remove(rest, id);
      }
    }
  }

  /** Every open id and the active id name a file of the tree. */
  predicate TabsAreFiles(tree: seq<Node>, t: Session) {
    && (forall id | id in t.open :: Find(tree, id).Some? && Find(tree, id).value.File?)
    && (t.active.Some? ==> Find(tree, t.active.value).Some? && Find(tree, t.active.value).value.File?)
  }

  /** The explorer only selects file rows, so open and active ids stay names of files. */
  lemma SelectFileKeepsFiles(tree: seq<Node>, t: Session, id: Id)
    requires TabsAreFiles(tree, t)
    requires Find(tree, id).Some? && Find(tree, id).value.File?
    ensures TabsAreFiles(tree, Select(t, id))
  {
  }

  /** Closing and clicking tabs never introduce a non-file id. */
  lemma CloseAndClickKeepFiles(tree: seq<Node>, t: Session, id: Id)
    requires TabsAreFiles(tree, t) && Valid(t)
    ensures TabsAreFiles(tree, Close(t, id))
    ensures id in t.open ==> TabsAreFiles(tree, ClickTab(t, id))
  {
  }

  /** The session the editor starts with names a file of the seed. */
  lemma InitialTabsAreFiles()
    ensures TabsAreFiles(Seed.Workspace, Initial)
  {
    Seed.InitialActiveIsFile();
  }

  /** A worked example, first half: selecting a.ts, b.ts and readme.md opens three tabs in that
      order and focuses the last. */
  lemma WalkthroughOpens()
    ensures Select(Select(Select(Session([], None), "a.ts"), "b.ts"), "readme.md")
         == Session(["a.ts", "b.ts", "readme.md"], Some("readme.md"))
  {
    assert Select(Session([], None), "a.ts") == Session(["a.ts"], Some("a.ts")) by {
      assert [] + ["a.ts"] == ["a.ts"];
    }
    assert Select(Session(["a.ts"], Some("a.ts")), "b.ts") == Session(["a.ts", "b.ts"], Some("b.ts")) by {
      assert "b.ts" !in ["a.ts"] && ["a.ts"] + ["b.ts"] == ["a.ts", "b.ts"];
    }
    assert Select(Session(["a.ts", "b.ts"], Some("b.ts")), "readme.md") == Session(["a.ts", "b.ts", "readme.md"], Some("readme.md")) by {
      assert "readme.md" !in ["a.ts", "b.ts"] && ["a.ts", "b.ts"] + ["readme.md"] == ["a.ts", "b.ts", "readme.md"];
    }
  }

  /** Second half: closing the inactive b.ts keeps the focus on readme.md; closing the active
      readme.md then moves the focus to the last remaining tab, a.ts. */
  lemma WalkthroughCloses()
    ensures Close(Session(["a.ts", "b.ts", "readme.md"], Some("readme.md")), "b.ts")
         == Session(["a.ts", "readme.md"], Some("readme.md"))
    ensures Close(Session(["a.ts", "readme.md"], Some("readme.md")), "readme.md")
         == Session(["a.ts"], Some("a.ts"))
  {
    RemoveCons("readme.md", [], "b.ts");
    RemoveCons("b.ts", ["readme.md"], "b.ts");
    RemoveCons("a.ts", ["b.ts", "readme.md"], "b.ts");
    RemoveCons("readme.md", [], "readme.md");
    RemoveCons("a.ts", ["readme.md"], "readme.md");
  }
}
