/**
  The explorer rows and the editor gutter of CodeSection: each row remembers
  whether it is expanded, a click on a file row selects the file and a click on
  a folder row toggles it; a file row shows an icon chosen by the file name's
  suffix; the gutter numbers the lines of the active file.
 */
module Explorer {
  import opened Wrappers
  import opened Text
  import opened FileTree
  import EditorTabs

  /** One explorer row: the node it shows, its nesting level and its expansion flag. */
  datatype Row = Row(node: Node, level: nat, expanded: bool)

  /** A freshly mounted row: the top two levels start expanded, deeper folders collapsed. */
  function NewRow(node: Node, level: nat): (r: Row)
    ensures r.node == node && r.level == level
    ensures r.expanded <==> level < 2
  {
    Row(node, level, level < 2)
  }

  /** `handleClick`: a file row selects its file, a folder row flips its own expansion. */
  function ClickRow(row: Row, t: EditorTabs.Session): (r: (Row, EditorTabs.Session))
    ensures row.node.File? ==> r.0 == row && r.1 == EditorTabs.Select(t, row.node.id)
    ensures row.node.Folder? ==> r.1 == t && r.0.node == row.node && r.0.level == row.level
                                 && r.0.expanded != row.expanded
  {
    if row.node.File? then (row, EditorTabs.Select(t, row.node.id))
    else (row.(expanded := !row.expanded), t)
  }

  /** Two clicks on a folder row restore it; the session is untouched. */
  lemma FolderClickTwice(row: Row, t: EditorTabs.Session)
    requires row.node.Folder?
    ensures ClickRow(ClickRow(row, t).0, t) == (row, t)
  {
  }

  /** The child rows drawn under a row: only an expanded folder shows its children, one level deeper. */
  function ChildRows(row: Row): (r: seq<Row>)
    ensures row.node.File? || !row.expanded ==> r == []
    ensures row.node.Folder? && row.expanded ==>
              |r| == |row.node.children|
              && forall k | 0 <= k < |r| :: r[k] == NewRow(row.node.children[k], row.level + 1)
  {
    if row.node.Folder? && row.expanded
    then seq(|row.node.children|, k requires 0 <= k < |row.node.children| => NewRow(row.node.children[k], row.level + 1))
    else []
  }

  /** The glyphs the explorer puts in front of a file name. */
  datatype Icon = Atom | Page | Palette | Clipboard | Globe | Memo

  /** `getFileIcon`: the first matching suffix in a fixed order decides; anything else is a page. */
  function FileIcon(name: string): Icon {
    if EndsWith(name, ".tsx") || EndsWith(name, ".jsx") then Atom
    else if EndsWith(name, ".ts") || EndsWith(name, ".js") then Page
    else if EndsWith(name, ".css") then Palette
    else if EndsWith(name, ".json") then Clipboard
    else if EndsWith(name, ".html") then Globe
    else if EndsWith(name, ".md") then Memo
    else Page
  }

  /** The same mapping as a table of suffix rules, read top to bottom. */
  const IconRules: seq<(string, Icon)> := [
    (".tsx", Atom), (".jsx", Atom), (".ts", Page), (".js", Page),
    (".css", Palette), (".json", Clipboard), (".html", Globe), (".md", Memo)
  ]

  /** The icon of the first rule whose suffix the name ends with, or the fallback. */
  function FirstRule(rules: seq<(string, Icon)>, name: string, fallback: Icon): (r: Icon)
    ensures (forall k | 0 <= k < |rules| :: !EndsWith(name, rules[k].0)) ==> r == fallback
  {
    if |rules| == 0 then fallback
    else if EndsWith(name, rules[0].0) then rules[0].1
    else FirstRule(rules[1..], name, fallback)
  }

  /** One step of the table scan. */
  lemma FirstRuleStep(rules: seq<(string, Icon)>, k: nat, name: string, fallback: Icon)
    requires k < |rules|
    ensures FirstRule(rules[k..], name, fallback)
         == if EndsWith(name, rules[k].0) then rules[k].1 else FirstRule(rules[k + 1..], name, fallback)
  {
    assert rules[k..][0] == rules[k];
    assert rules[k..][1..] == rules[k + 1..];
  }

  /** The chain of tests and the rule table agree on every name. */
  lemma FileIconIsFirstRule(name: string)
    ensures FileIcon(name) == FirstRule(IconRules, name, Page)
  {
    assert IconRules[0..] == IconRules;
    FirstRuleStep(IconRules, 0, name, Page);
    FirstRuleStep(IconRules, 1, name, Page);
    FirstRuleStep(IconRules, 2, name, Page);
    FirstRuleStep(IconRules, 3, name, Page);
    FirstRuleStep(IconRules, 4, name, Page);
    FirstRuleStep(IconRules, 5, name, Page);
    FirstRuleStep(IconRules, 6, name, Page);
    FirstRuleStep(IconRules, 7, name, Page);
    assert IconRules[8..] == [];
  }

  /** Two suffixes that differ at the `k`-th character from the end cannot both end one name. */
  lemma SuffixesDiffer(name: string, a: string, b: string, k: nat)
    requires 1 <= k <= |a| && k <= |b| && a[|a| - k] != b[|b| - k]
    ensures !(EndsWith(name, a) && EndsWith(name, b))
  {
    if EndsWith(name, a) {
      assert name[|name| - k] == name[|name| - |a|..][|a| - k] == a[|a| - k];
      if |b| <= |name| {
        assert name[|name| - |b|..][|b| - k] == name[|name| - k];
      }
    }
  }

  /** At most one suffix of the table matches any name, so the order of the tests never decides. */
  lemma SuffixesExclusive(name: string, i: nat, j: nat)
    requires i < j < |IconRules|
    ensures !(EndsWith(name, IconRules[i].0) && EndsWith(name, IconRules[j].0))
  {
    var a := IconRules[i].0;
    var b := IconRules[j].0;
    assert |a| >= 3 && |b| >= 3;
    if a[|a| - 1] != b[|b| - 1] {
      SuffixesDiffer(name, a, b, 1);
    } else if a[|a| - 2] != b[|b| - 2] {
      SuffixesDiffer(name, a, b, 2);
    } else {
      assert a[|a| - 3] != b[|b| - 3];
      SuffixesDiffer(name, a, b, 3);
    }
  }

  /** Lines shown when no file text is available. */
  const DefaultGutter: nat := 50

  /** The gutter: one number per piece of the active file's text split at newlines, else 50. */
  function GutterLines(current: Option<Node>): (n: nat)
    ensures (current.Some? && current.value.File? && current.value.content.Some?)
              ==> n == Count(current.value.content.value, '\n') + 1
    ensures !(current.Some? && current.value.File? && current.value.content.Some?) ==> n == DefaultGutter
  {
    match current
    case Some(File(_, _, _, Some(text))) => SplitCount(text, '\n'); |Split(text, '\n')|
    case _ => DefaultGutter
  }

  /** The gutter of the editor: the active id resolved in the tree, a missing file or none giving 50. */
  function EditorGutter(tree: seq<Node>, t: EditorTabs.Session): (n: nat)
    ensures t.active.None? ==> n == DefaultGutter
    ensures Resolve(tree, t.active).None? ==> n == DefaultGutter
    ensures forall f | Resolve(tree, t.active) == Some(f) && f.File? && f.content.Some? ::
              n == Count(f.content.value, '\n') + 1
    ensures n >= 1
  {
    GutterLines(Resolve(tree, t.active))
  }
}
