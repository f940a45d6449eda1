/** Building an NDX index bottom-up from a list of entries, and walking it. */
module NdxBuild {
  import opened Entries
  import opened NdxTree
  import NdxPage

  /** The page numbers 1 to n-1, once each. */
  ghost function Upto(n: nat): (m: multiset<nat>)
    ensures forall x :: m[x] == if 1 <= x < n then 1 else 0
  {
    if n <= 1 then multiset{} else Upto(n - 1) + multiset{n - 1}
  }

  // ---------------------------------------------------------------- duplicates, in place

  /** Keeps the first of each run of equal keys. The list is overwritten from the front while it is
      read; what is compared against has either not been overwritten or was overwritten by itself. */
  method DropDuplicates(a: array<Entry>) returns (n: nat)
    modifies a
    ensures n <= a.Length && a[..n] == FirstOfEach(old(a[..]))
  {
    hide FirstOfEach;
    ghost var s := a[..];
    n := 0;
    NoneYet(s);
    var i := 0;
    while i < a.Length
      invariant n <= i <= a.Length && a[..n] == FirstOfEach(s[..i])
      invariant forall k :: n <= k < a.Length ==> a[k] == s[k]
      invariant n == i ==> a[..n] == s[..i]
    {
      NextEntry(s, i);
      assert i > 0 && n == i ==> a[i - 1] == a[..n][i - 1] == s[..i][i - 1];
      if i > 0 && a[i - 1].key == a[i].key {
      } else {
        a[n] := a[i];
        n := n + 1;
        assert a[..n] == a[..n - 1] + [s[i]];
      }
      assert s[..i + 1] == s[..i] + [s[i]];
      i := i + 1;
    }
    assert s[..i] == s;
  }

  /** Whether all keys have the key size. */
  method KeysFit(list: seq<Entry>, keySize: nat) returns (ok: bool)
    ensures ok <==> forall k :: 0 <= k < |list| ==> |list[k].key| == keySize
  {
    var i := 0;
    while i < |list|
      invariant i <= |list| && forall k :: 0 <= k < i ==> |list[k].key| == keySize
    {
      if |list[i].key| != keySize {
        return false;
      }
      i := i + 1;
    }
    ok := true;
  }

  /** The entries sorted, and in a unique index reduced to the first of each key. */
  method Arranged(list: seq<Entry>, unique: bool) returns (sorted: seq<Entry>)
    ensures sorted == Indexed(list, unique)
  {
    hide FirstOfEach, Sort;
    sorted := Sort(list);
    if unique {
      var a := new Entry[|sorted|](k requires 0 <= k < |sorted| => sorted[k]);
      assert a[..] == sorted;
      var n := DropDuplicates(a);
      sorted := a[..n];
    }
  }

  lemma {:induction false} NoneYet(s: seq<Entry>)
    ensures FirstOfEach(s[..0]) == []
  {
  }

  lemma {:induction false} NextEntry(s: seq<Entry>, i: nat)
    requires i < |s|
    ensures FirstOfEach(s[..i + 1]) == FirstOfEach(s[..i]) + if i > 0 && s[i - 1].key == s[i].key then [] else [s[i]]
  {
    assert s[..i + 1][..i] == s[..i];
  }

  // ---------------------------------------------------------------- levels

  /** The pages of one level stand for these trees, which hold all entries and all pages so far. */
  ghost predicate LevelOk(level: seq<Page>, trees: seq<Tree>, list: seq<Page>, s: seq<Entry>, next: nat, form: Form) {
    && AllOf(trees) == s && Rooted(level, trees, list, form)
    && NumbersOf(trees) == Upto(next) && InOrder(list, next, form.perPage)
  }

  /** How many records a page has room for, and how deep the trees of a level are. */
  datatype Form = Form(perPage: nat, depth: nat)

  ghost predicate Made(t: Tree, form: Form) {
    Wired(t) && Packed(t, form.perPage, form.depth)
  }

  /** These pages are the roots of these trees, whose pages are all listed. */
  ghost predicate Rooted(level: seq<Page>, trees: seq<Tree>, list: seq<Page>, form: Form) {
    |trees| == |level| &&
    forall k :: 0 <= k < |level| ==> trees[k].page == level[k] && Made(trees[k], form) && Listed(list, trees[k])
  }

  lemma {:induction false} RootedMore(level: seq<Page>, trees: seq<Tree>, list: seq<Page>, form: Form, t: Tree)
    requires Rooted(level, trees, list, form) && Made(t, form) && Listed(list + [t.page], t)
    ensures Rooted(level + [t.page], trees + [t], list + [t.page], form)
  {
    hide Made, Listed;
    forall k | 0 <= k < |trees| ensures Listed(list + [t.page], trees[k]) {
      ListedMore(list, [t.page], trees[k]);
    }
  }

  /** Page numbers run from 1 on, and no page is overfull. */
  ghost predicate InOrder(list: seq<Page>, next: nat, perPage: nat) {
    |list| + 1 == next && forall k :: 0 <= k < |list| ==> list[k].number == k + 1 && |list[k].records| <= perPage
  }

  method LeafPage(s: seq<Entry>, from: nat, end: nat, number: nat) returns (p: Page)
    requires from < end <= |s| && number > 0
    ensures p.number == number && |p.records| == end - from && Wired(Tree(p, [])) && All(Tree(p, [])) == s[from..end]
  {
    var records: seq<KeyRecord>, i := [], from;
    while i < end
      invariant from <= i <= end && |records| == i - from
      invariant forall k :: 0 <= k < |records| ==> records[k] == KeyRecord(0, s[from + k].recno, s[from + k].key)
    {
      records := records + [KeyRecord(0, s[i].recno, s[i].key)];
      i := i + 1;
    }
    p := Page(number, records);
    assert Records(records) == s[from..end];
  }

  /** The leaf level: entries packed into pages in order. */
  method Leaves(s: seq<Entry>, perPage: nat) returns (leaves: seq<Page>, next: nat, ghost trees: seq<Tree>)
    requires perPage >= 2 && s != []
    ensures leaves != [] && LevelOk(leaves, trees, leaves, s, next, Form(perPage, 0))
  {
    hide Wired, Upto;
    leaves, next, trees := [], 1, [];
    UptoOne();
    var i := 0;
    while i < |s|
      invariant i <= |s| && (i > 0 ==> leaves != []) && LevelOk(leaves, trees, leaves, s[..i], next, Form(perPage, 0))
    {
      var end := Smaller(i + perPage, |s|);
      var p := LeafPage(s, i, end, next);
      AddTree(leaves, trees, leaves, s[..i], next, Tree(p, []), perPage);
      assert s[..end] == s[..i] + s[i..end];
      leaves, trees, next, i := leaves + [p], trees + [Tree(p, [])], next + 1, end;
    }
    assert s[..i] == s;
  }

  lemma {:induction false} UptoOne()
    ensures Upto(1) == multiset{} == NumbersOf([]) && AllOf([]) == []
  {
  }

  /** A fresh leaf at the end of the level. */
  lemma {:induction false} AddTree(level: seq<Page>, trees: seq<Tree>, list: seq<Page>, s: seq<Entry>, next: nat,
                                   t: Tree, perPage: nat)
    requires LevelOk(level, trees, list, s, next, Form(perPage, 0))
    requires t.kids == [] && t.page.number == next && Wired(t) && |t.page.records| <= perPage
    ensures LevelOk(level + [t.page], trees + [t], list + [t.page], s + All(t), next + 1, Form(perPage, 0))
  {
    hide Wired, All, Listed;
    AllOfJoin(trees, [t]);
    AllOfOne(t);
    ListedLeaf(list, t);
    RootedMore(level, trees, list, Form(perPage, 0), t);
    assert Numbers(t) == multiset{next};
  }

  lemma {:induction false} ListedLeaf(list: seq<Page>, t: Tree)
    requires t.kids == []
    ensures Listed(list + [t.page], t)
  {
  }

  /** One separator for each page of a run. */
  method BranchPage(level: seq<Page>, from: nat, end: nat, number: nat, ghost trees: seq<Tree>) returns (p: Page)
    requires from < end <= |level| == |trees| && number > 0
    requires forall k :: 0 <= k < |level| ==> trees[k].page == level[k] && Wired(trees[k])
    ensures p.number == number && |p.records| == end - from && Wired(Tree(p, trees[from..end]))
  {
    var records: seq<KeyRecord>, i := [], from;
    while i < end
      invariant from <= i <= end && |records| == i - from
      invariant forall k :: 0 <= k < |records| ==> records[k] == SeparatorFor(level[from + k])
    {
      assert Wired(trees[i]);
      var child := level[i];
      records := records + [KeyRecord(child.number, 0, child.records[|child.records| - 1].key)];
      i := i + 1;
    }
    p := Page(number, records);
    var kids := trees[from..end];
    forall k | k in kids ensures Wired(k) {
      var j :| 0 <= j < |kids| && kids[j] == k;
      assert kids[j] == trees[from + j];
    }
  }

  /** A level that is partly under parents: those parents, and the trees still without one. */
  ghost predicate Halfway(level: seq<Page>, trees: seq<Tree>, i: nat, parents: seq<Page>, above: seq<Tree>,
                          list: seq<Page>, s: seq<Entry>, next: nat, form: Form)
  {
    && i <= |level| == |trees| && AllOf(above) + AllOf(trees[i..]) == s
    && NumbersOf(above) + NumbersOf(trees[i..]) == Upto(next)
    && Rooted(parents, above, list + parents, form.(depth := form.depth + 1)) && Rooted(level, trees, list, form)
    && InOrder(list + parents, next, form.perPage)
  }

  lemma {:induction false} StartHalfway(level: seq<Page>, trees: seq<Tree>, list: seq<Page>, s: seq<Entry>, next: nat,
                                        form: Form)
    requires LevelOk(level, trees, list, s, next, form)
    ensures Halfway(level, trees, 0, [], [], list, s, next, form)
  {
    assert trees[0..] == trees && list + [] == list;
    assert AllOf([]) + AllOf(trees) == AllOf(trees);
  }

  lemma {:induction false} EndHalfway(level: seq<Page>, trees: seq<Tree>, parents: seq<Page>, above: seq<Tree>,
                                      list: seq<Page>, s: seq<Entry>, next: nat, form: Form)
    requires Halfway(level, trees, |level|, parents, above, list, s, next, form)
    ensures LevelOk(parents, above, list + parents, s, next, form.(depth := form.depth + 1))
  {
    assert trees[|level|..] == [];
    assert AllOf(above) + [] == AllOf(above);
  }

  lemma {:induction false} AddParent(level: seq<Page>, trees: seq<Tree>, i: nat, end: nat, parents: seq<Page>,
                                     above: seq<Tree>, list: seq<Page>, s: seq<Entry>, next: nat, form: Form, p: Page)
    requires Halfway(level, trees, i, parents, above, list, s, next, form) && i < end <= |level|
    requires p.number == next && |p.records| <= form.perPage && Wired(Tree(p, trees[i..end]))
    ensures Halfway(level, trees, end, parents + [p], above + [Tree(p, trees[i..end])], list, s, next + 1, form)
  {
    hide Made, Rooted, InOrder, Wired, All, AllOf, Numbers, NumbersOf, Listed, Upto;
    OneMorePage(list + parents, next, form.perPage, p);
    ParentHolds(trees, i, end, above, s, next, p);
    assert list + (parents + [p]) == (list + parents) + [p];
    ParentRooted(level, trees, i, end, list, parents, form, p);
    RootedMore(parents, above, list + parents, form.(depth := form.depth + 1), Tree(p, trees[i..end]));
    SameLength(parents, above, list + parents, form.(depth := form.depth + 1));
  }

  lemma SameLength(level: seq<Page>, trees: seq<Tree>, list: seq<Page>, form: Form)
    requires Rooted(level, trees, list, form)
    ensures |trees| == |level|
  {
  }

  lemma OneMorePage(list: seq<Page>, next: nat, perPage: nat, p: Page)
    requires InOrder(list, next, perPage) && p.number == next && |p.records| <= perPage
    ensures InOrder(list + [p], next + 1, perPage) && next >= 1
  {
  }

  lemma {:induction false} ParentRooted(level: seq<Page>, trees: seq<Tree>, i: nat, end: nat, list: seq<Page>,
                                        parents: seq<Page>, form: Form, p: Page)
    requires Rooted(level, trees, list, form) && i < end <= |level| == |trees|
    requires |p.records| <= form.perPage && Wired(Tree(p, trees[i..end]))
    ensures Made(Tree(p, trees[i..end]), form.(depth := form.depth + 1))
    ensures Listed(list + (parents + [p]), Tree(p, trees[i..end]))
  {
    hide Made, Listed, Wired;
    ParentMade(trees, i, end, form, p);
    ParentListed(trees, i, end, list, parents, p);
  }

  lemma {:induction false} ParentMade(trees: seq<Tree>, i: nat, end: nat, form: Form, p: Page)
    requires i < end <= |trees| && |p.records| <= form.perPage && Wired(Tree(p, trees[i..end]))
    requires forall k :: 0 <= k < |trees| ==> Made(trees[k], form)
    ensures Made(Tree(p, trees[i..end]), form.(depth := form.depth + 1))
  {
    hide Wired;
    var run := trees[i..end];
    forall k | k in run ensures Packed(k, form.perPage, form.depth) {
      var j :| 0 <= j < |run| && run[j] == k;
      assert run[j] == trees[i + j];
    }
  }

  lemma {:induction false} ParentHolds(trees: seq<Tree>, i: nat, end: nat, above: seq<Tree>, s: seq<Entry>, next: nat,
                                       p: Page)
    requires i < end <= |trees| && p.number == next >= 1
    requires AllOf(above) + AllOf(trees[i..]) == s && NumbersOf(above) + NumbersOf(trees[i..]) == Upto(next)
    ensures var above2 := above + [Tree(p, trees[i..end])];
      AllOf(above2) + AllOf(trees[end..]) == s && NumbersOf(above2) + NumbersOf(trees[end..]) == Upto(next + 1)
  {
    hide All, AllOf, Numbers, NumbersOf, Upto;
    var t, run := Tree(p, trees[i..end]), trees[i..end];
    assert trees[i..] == run + trees[end..];
    AllOfJoin(run, trees[end..]);
    AllOfJoin(above, [t]);
    AllOfOne(t);
    BranchParts(t);
    UptoNext(next);
    assert AllOf(above) + (AllOf(run) + AllOf(trees[end..])) == (AllOf(above) + AllOf(run)) + AllOf(trees[end..]);
  }

  lemma {:induction false} ParentListed(trees: seq<Tree>, i: nat, end: nat, list: seq<Page>, parents: seq<Page>,
                                        p: Page)
    requires i < end <= |trees| && forall k :: 0 <= k < |trees| ==> Listed(list, trees[k])
    ensures Listed(list + (parents + [p]), Tree(p, trees[i..end]))
  {
    hide Listed;
    var run := trees[i..end];
    forall k | k in run ensures Listed(list + (parents + [p]), k) {
      var j :| 0 <= j < |run| && run[j] == k;
      assert run[j] == trees[i + j];
      ListedMore(list, parents + [p], k);
    }
    ListedBranch(list + (parents + [p]), Tree(p, run));
  }

  lemma {:induction false} BranchParts(t: Tree)
    requires t.kids != []
    ensures All(t) == AllOf(t.kids) && Numbers(t) == multiset{t.page.number} + NumbersOf(t.kids)
  {
  }

  lemma {:induction false} UptoNext(next: nat)
    requires next >= 1
    ensures Upto(next + 1) == Upto(next) + multiset{next}
  {
  }

  lemma {:induction false} ListedBranch(list: seq<Page>, t: Tree)
    requires t.page in list && forall k :: k in t.kids ==> Listed(list, k)
    ensures Listed(list, t)
  {
  }

  /** One level up: fewer pages, as every parent but the last takes at least two children. */
  method Parents(level: seq<Page>, perPage: nat, next: nat, ghost trees: seq<Tree>, ghost list: seq<Page>,
                 ghost s: seq<Entry>, ghost depth: nat)
    returns (parents: seq<Page>, next2: nat, ghost above: seq<Tree>)
    requires perPage >= 2 && |level| > 1 && LevelOk(level, trees, list, s, next, Form(perPage, depth))
    ensures 0 < |parents| < |level| && LevelOk(parents, above, list + parents, s, next2, Form(perPage, depth + 1))
  {
    ghost var form := Form(perPage, depth);
    hide Wired, Packed, Upto, AllOf, NumbersOf, Listed;
    parents, next2, above := [], next, [];
    StartHalfway(level, trees, list, s, next, form);
    var i := 0;
    while i < |level|
      invariant i <= |level| && (i > 0 ==> parents != [])
      invariant Halfway(level, trees, i, parents, above, list, s, next2, form)
      invariant 2 * |parents| <= if i < |level| then i else i + 1
    {
      var end := Smaller(i + perPage, |level|);
      var p := BranchPage(level, i, end, next2, trees);
      AddParent(level, trees, i, end, parents, above, list, s, next2, form, p);
      parents, above, next2, i := parents + [p], above + [Tree(p, trees[i..end])], next2 + 1, end;
    }
    EndHalfway(level, trees, parents, above, list, s, next2, form);
  }

  // ---------------------------------------------------------------- walking

  ghost predicate Once(m: multiset<nat>) {
    forall x :: m[x] <= 1
  }

  ghost function Support(m: multiset<nat>): set<nat> {
    set x | x in m
  }

  /** The subtree is on file, uses no page twice and none that was seen before. */
  ghost predicate Fresh(pages: Pages, t: Tree, seen: set<nat>) {
    Wired(t) && Stored(pages, t) && Once(Numbers(t)) && forall x :: x in Numbers(t) ==> x !in seen
  }

  lemma {:induction false} KidFresh(pages: Pages, t: Tree, seen: set<nat>, j: nat)
    requires Fresh(pages, t, seen) && j < |t.kids|
    ensures Fresh(pages, t.kids[j], seen + {t.page.number} + Support(NumbersOf(t.kids[..j])))
    ensures Support(NumbersOf(t.kids[..j + 1])) == Support(NumbersOf(t.kids[..j])) + Support(Numbers(t.kids[j]))
  {
    hide Wired, Stored;
    var before, kid, after := t.kids[..j], t.kids[j], t.kids[j + 1..];
    assert t.kids == before + [kid] + after;
    assert t.kids[..j + 1] == before + [kid];
    AllOfJoin(before + [kid], after);
    AllOfJoin(before, [kid]);
    AllOfOne(kid);
    assert kid in t.kids;
    KidWired(pages, t, kid);
    assert Numbers(t) == multiset{t.page.number} + (NumbersOf(before) + Numbers(kid) + NumbersOf(after));
    forall x | x in Numbers(kid) ensures x !in seen + {t.page.number} + Support(NumbersOf(before)) {
      assert Numbers(t)[x] <= 1;
    }
    forall x ensures Numbers(kid)[x] <= 1 {
      assert Numbers(t)[x] <= 1;
    }
  }

  lemma {:induction false} KidWired(pages: Pages, t: Tree, kid: Tree)
    requires Wired(t) && Stored(pages, t) && kid in t.kids
    ensures Wired(kid) && Stored(pages, kid)
  {
  }

  lemma {:induction false} RootFacts(pages: Pages, t: Tree, seen: set<nat>)
    requires Fresh(pages, t, seen)
    ensures t.page.number > 0 && t.page.number !in seen && t.page.number in pages
    ensures pages[t.page.number] == t.page.records
    ensures t.kids != [] ==> |t.kids| == |t.page.records|
    ensures Support(Numbers(t)) == {t.page.number} + Support(NumbersOf(t.kids))
  {
    assert t.page.number in Numbers(t);
  }

  /** What the first j records of a page have given. */
  ghost predicate WalkedTo(t: Tree, j: nat, out: seq<Entry>) {
    && j <= |t.page.records| && (t.kids != [] ==> |t.kids| == |t.page.records|)
    && out == Reported(if t.kids == [] then Records(t.page.records[..j]) else AllOf(t.kids[..j]))
  }

  /** A leaf record has nothing below it; a separator has its child below it and no record number. */
  lemma {:induction false} RecordMeans(t: Tree, j: nat)
    requires Wired(t) && j < |t.page.records|
    ensures t.kids == [] ==> t.page.records[j].lower == 0
    ensures t.kids != [] ==>
      j < |t.kids| && t.page.records[j].lower == t.kids[j].page.number > 0 && t.page.records[j].recno == 0
  {
    if t.kids != [] {
      assert t.kids[j] in t.kids;
    }
  }

  lemma {:induction false} WalkedOn(t: Tree, j: nat, sofar: seq<Entry>, out: seq<Entry>)
    requires WalkedTo(t, j, sofar) && j < |t.page.records|
    requires var r := t.page.records[j];
      out == sofar + if t.kids != [] then Reported(All(t.kids[j])) else if r.recno != 0 then [Entry(r.key, r.recno)]
        else []
    ensures WalkedTo(t, j + 1, out)
  {
    if t.kids == [] {
      var r := t.page.records;
      assert Records(r[..j + 1]) == Records(r[..j]) + [EntryOf(r[j])];
      ReportedJoin(Records(r[..j]), [EntryOf(r[j])]);
    } else {
      assert t.kids[..j + 1] == t.kids[..j] + [t.kids[j]];
      AllOfJoin(t.kids[..j], [t.kids[j]]);
      AllOfOne(t.kids[j]);
      ReportedJoin(AllOf(t.kids[..j]), All(t.kids[j]));
    }
  }

  lemma {:induction false} WalkEnds(t: Tree, out: seq<Entry>)
    ensures (t.kids != [] ==> |t.kids| == |t.page.records|) ==> WalkedTo(t, 0, [])
    ensures WalkedTo(t, |t.page.records|, out) ==> out == Reported(All(t))
  {
    assert t.page.records[..|t.page.records|] == t.page.records;
    assert t.kids[..|t.kids|] == t.kids;
  }

  /** In-order walk of one page. A page met twice, or one that is not on file, is an error; an intact
      subtree gives its entries in order and visits exactly its own pages. */
  method WalkPage(pages: Pages, number: nat, visited: set<nat>, ghost t: Option<Tree>)
    returns (ok: bool, seen: set<nat>, out: seq<Entry>)
    requires t.Some? ==> t.value.page.number == number && Fresh(pages, t.value, visited)
    ensures visited <= seen
    ensures t.Some? ==> ok && out == Reported(All(t.value)) && seen == visited + Support(Numbers(t.value))
    decreases pages.Keys - visited
  {
    hide Wired, Stored, Once, Reported, All, Numbers, NumbersOf, AllOf, Support, WalkedTo;
    out, seen := [], visited;
    if t.Some? {
      RootFacts(pages, t.value, visited);
    }
    if number == 0 {
      return true, visited, [];
    }
    if number in visited {
      return false, visited, [];
    }
    seen := visited + {number};
    if number !in pages {
      return false, seen, [];
    }
    var records := pages[number];
    ghost var kids := if t.Some? then t.value.kids else [];
    if t.Some? {
      WalkEnds(t.value, out);
      NoneSeen();
    }
    var j := 0;
    while j < |records|
      invariant j <= |records| && visited + {number} <= seen
      invariant t.Some? ==>
        WalkedTo(t.value, j, out) && seen == visited + {number} + Support(NumbersOf(kids[..Smaller(j, |kids|)]))
    {
      var r := records[j];
      ghost var kid: Option<Tree> := None;
      if t.Some? {
        RecordMeans(t.value, j);
        if kids != [] {
          KidFresh(pages, t.value, visited, j);
          kid := Some(kids[j]);
        }
      }
      ghost var sofar := out;
      if r.lower != 0 {
        var below, more;
        below, seen, more := WalkPage(pages, r.lower, seen, kid);
        if !below {
          return false, seen, out;
        }
        out := out + more;
      }
      if r.recno != 0 {
        out := out + [Entry(r.key, r.recno)];
      }
      if t.Some? {
        WalkedOn(t.value, j, sofar, out);
      }
      j := j + 1;
    }
    if t.Some? {
      WalkEnds(t.value, out);
      assert kids[..|kids|] == kids;
    }
    ok := true;
  }

  lemma {:induction false} NoneSeen()
    ensures Support(NumbersOf([])) == {}
  {
  }

  // ---------------------------------------------------------------- the index

  /** All levels, from the leaves up to a single page. Every round leaves fewer pages than the one before. */
  method Levels(sorted: seq<Entry>, perPage: nat)
    returns (all: seq<Page>, rootPage: Page, next: nat, ghost trees: seq<Tree>, ghost depth: nat)
    requires perPage >= 2 && sorted != []
    ensures LevelOk([rootPage], trees, all, sorted, next, Form(perPage, depth))
  {
    hide LevelOk;
    var level;
    level, next, trees := Leaves(sorted, perPage);
    all, depth := level, 0;
    while |level| > 1
      invariant level != [] && LevelOk(level, trees, all, sorted, next, Form(perPage, depth))
      decreases |level|
    {
      ghost var under := trees;
      level, next, trees := Parents(level, perPage, next, under, all, sorted, depth);
      all, depth := all + level, depth + 1;
    }
    rootPage := level[0];
    assert level == [rootPage];
  }

  const MAX_KEY_SIZE := 100

  class Index {
    const keySize: nat
    const perPage: nat
    const unique: bool
    var pages: Pages
    var root: nat
    var pageCount: nat
    ghost var tree: Option<Tree>
    ghost var entries: seq<Entry>

    ghost var depth: nat

    /** The file holds a tree over the entries, made of pages 1 to pageCount - 1, each used once. Its
        leaves are all equally deep, and every page has room for its records. */
    ghost predicate Valid()
      reads this
    {
      && perPage == NdxPage.PerPage(keySize) >= 2 && pageCount >= 1
      && (tree.None? ==> root == 0 && entries == [] && pageCount == 1)
      && (tree.Some? ==>
            && root == tree.value.page.number && Made(tree.value, Form(perPage, depth)) && Stored(pages, tree.value)
            && All(tree.value) == entries && Numbers(tree.value) == Upto(pageCount))
    }

    constructor (keySize: nat, unique: bool)
      requires 1 <= keySize <= MAX_KEY_SIZE
      ensures Valid() && this.keySize == keySize && this.unique == unique && entries == []
    {
      NdxPage.RoomForTwo(keySize);
      this.keySize, perPage, this.unique := keySize, NdxPage.PerPage(keySize), unique;
      pages, root, pageCount, tree, entries, depth := map[], 0, 1, None, [], 0;
    }

    /** Replaces the contents by these entries, sorted and packed from the bottom up. */
    method Build(list: seq<Entry>) returns (ok: bool)
      requires Valid()
      modifies this
      ensures ok <==> forall k :: 0 <= k < |list| ==> |list[k].key| == keySize
      ensures Valid() && entries == if ok then Indexed(list, unique) else old(entries)
    {
      hide Made, Rooted, InOrder, Listed, Stored, All, AllOf, Numbers, NumbersOf, Upto, NdxPage.PerPage;
      ok := KeysFit(list, keySize);
      if !ok {
        return;
      }
      var sorted := Arranged(list, unique);
      if |sorted| == 0 {
        root, pageCount, tree, entries := 0, 1, None, [];
        return;
      }
      var all, rootPage, next;
      ghost var trees;
      ghost var d;
      all, rootPage, next, trees, d := Levels(sorted, perPage);
      ok := WritePages(all, next);
      OneTree([rootPage], trees, all, sorted, next, Form(perPage, d), pages);
      root, pageCount, tree, entries, depth := rootPage.number, next, Some(trees[0]), sorted, d;
    }

    /** Writes the pages; one with too many records would be refused, and none has. */
    method WritePages(all: seq<Page>, ghost next: nat) returns (ok: bool)
      requires InOrder(all, next, perPage)
      modifies this`pages
      ensures ok && forall p :: p in all ==> p.number in pages && pages[p.number] == p.records
    {
      var i := 0;
      while i < |all|
        invariant i <= |all|
        invariant forall k :: 0 <= k < i ==> all[k].number in pages && pages[all[k].number] == all[k].records
      {
        if |all[i].records| > perPage {
          return false;
        }
        pages := pages[all[i].number := all[i].records];
        i := i + 1;
      }
      ok := true;
    }

    /** All entries in key order; entries without a record number are passed over. */
    method Entries() returns (ok: bool, out: seq<Entry>)
      requires Valid()
      ensures ok && out == Reported(entries)
    {
      hide Wired, Stored, Numbers, All, Upto;
      if root == 0 {
        RootPositive();
        return true, [];
      }
      OnceEach();
      var seen;
      ok, seen, out := WalkPage(pages, root, {}, tree);
    }

    /** The record numbers under a key; a key of another length is refused. */
    method Seek(key: seq<byte>) returns (ok: bool, out: seq<nat>)
      requires Valid()
      ensures ok == (|key| == keySize)
      ensures ok ==> out == RecnosFor(Reported(entries), key)
    {
      if |key| != keySize {
        return false, [];
      }
      var all;
      ok, all := Entries();
      out := CollectRecnos(all, key);
    }

    lemma {:induction false} RootPositive()
      requires Valid()
      ensures root == 0 ==> entries == []
    {
    }

    lemma {:induction false} OnceEach()
      requires Valid() && root != 0
      ensures tree.Some? && Fresh(pages, tree.value, {})
    {
    }
  }

  lemma {:induction false} OneTree(level: seq<Page>, trees: seq<Tree>, all: seq<Page>, s: seq<Entry>, next: nat,
                                   form: Form, pages: Pages)
    requires |level| == 1 && LevelOk(level, trees, all, s, next, form)
    requires forall p :: p in all ==> p.number in pages && pages[p.number] == p.records
    ensures |trees| == 1 && trees[0].page == level[0] && Made(trees[0], form) && Stored(pages, trees[0])
    ensures All(trees[0]) == s && Numbers(trees[0]) == Upto(next)
    ensures next >= 1
  {
    hide Made, Listed, Stored, All, Numbers, Upto;
    assert trees == [trees[0]];
    AllOfOne(trees[0]);
    ListedStored(all, pages, trees[0]);
  }
}
