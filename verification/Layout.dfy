/**
 * The overview layout: checking an incoming arrangement, saving it, and resolving
 * it against the configured devices.
 */
module Layout {
  import opened Wrappers

  datatype Category = Category(name: string, devices: seq<string>)

  /**
   * A category as it comes out of JSON: something that is no object, or a name (None when it
   * is no string) and devices (None when they are no list, the empty
   * list when they are missing), of which some may be no strings.
   */
  datatype Raw = NotAnObject | Raw(name: Option<string>, devices: Option<seq<Option<string>>>)

  datatype Checked = Invalid | Clean(categories: seq<Category>)

  const MAX_CATEGORIES: nat := 50

  /** strip removes surrounding blanks, fold folds the case. */
  datatype Text = Text(strip: string -> string, fold: string -> string)

  predicate NameOk(t: Text, name: string) {
    1 <= |name| <= 64 && (forall i :: 0 <= i < |name| ==> name[i] as int >= 32 && name[i] as int != 127) &&
    t.fold(name) != "uncategorized"
  }

  // ---- placing devices --------------------------------------------------------------------------

  /** The valid devices of a list that were not seen before, each once, in order. */
  function Place(devices: seq<string>, valid: set<string>, seen: set<string>): seq<string> {
    if |devices| == 0 then []
    else
      var d := devices[|devices| - 1];
      var before := Place(devices[..|devices| - 1], valid, seen);
      if d in valid && d !in seen && d !in before then before + [d] else before
  }

  function Members(s: seq<string>): set<string> {
    set i | 0 <= i < |s| :: s[i]
  }

  /** Everything placed by the first categories. */
  function Placed(groups: seq<Category>): seq<string> {
    if |groups| == 0 then [] else Placed(groups[..|groups| - 1]) + groups[|groups| - 1].devices
  }

  /** Every category with its devices placed, a device going to the first category that names it. */
  function Groups(cats: seq<Category>, valid: set<string>): (g: seq<Category>)
    ensures |g| == |cats|
  {
    if |cats| == 0 then []
    else
      var before, c := Groups(cats[..|cats| - 1], valid), cats[|cats| - 1];
      before + [Category(c.name, Place(c.devices, valid, Members(Placed(before))))]
  }

  function Leftover(names: seq<string>, seen: set<string>): seq<string> {
    if |names| == 0 then []
    else Leftover(names[..|names| - 1], seen) + if names[|names| - 1] in seen then [] else [names[|names| - 1]]
  }

  lemma InMembers(s: seq<string>)
    ensures forall d :: d in Members(s) <==> d in s
  {
  }

  ghost predicate NoDuplicates(s: seq<string>) {
    forall i, j :: 0 <= i < j < |s| ==> s[i] != s[j]
  }

  lemma {:induction false} PlaceExactly(devices: seq<string>, valid: set<string>, seen: set<string>)
    ensures NoDuplicates(Place(devices, valid, seen))
    ensures forall d :: d in Place(devices, valid, seen) <==> d in devices && d in valid && d !in seen
  {
    if |devices| > 0 {
      PlaceExactly(devices[..|devices| - 1], valid, seen);
      assert devices == devices[..|devices| - 1] + [devices[|devices| - 1]];
    }
  }

  /** What is all right already is placed as it is. */
  lemma {:induction false} PlaceKeeps(devices: seq<string>, valid: set<string>, seen: set<string>)
    requires NoDuplicates(devices) && forall d :: d in devices ==> d in valid && d !in seen
    ensures Place(devices, valid, seen) == devices
  {
    if |devices| > 0 {
      var n := |devices| - 1;
      assert devices == devices[..n] + [devices[n]];
      PlaceKeeps(devices[..n], valid, seen);
      assert devices[n] !in devices[..n];
    }
  }

  /** No device is placed twice, and only valid ones are. */
  lemma {:induction false} GroupsDistinct(cats: seq<Category>, valid: set<string>)
    ensures NoDuplicates(Placed(Groups(cats, valid)))
    ensures forall d :: d in Placed(Groups(cats, valid)) ==> d in valid
  {
    if |cats| > 0 {
      var before, c := Groups(cats[..|cats| - 1], valid), cats[|cats| - 1];
      GroupsDistinct(cats[..|cats| - 1], valid);
      var placed := Place(c.devices, valid, Members(Placed(before)));
      PlaceExactly(c.devices, valid, Members(Placed(before)));
      assert Groups(cats, valid)[..|cats| - 1] == before;
      assert Placed(Groups(cats, valid)) == Placed(before) + placed;
      InMembers(Placed(before));
      DistinctConcat(Placed(before), placed);
    }
  }

  lemma DistinctConcat(a: seq<string>, b: seq<string>)
    requires NoDuplicates(a) && NoDuplicates(b) && forall d :: d in b ==> d !in a
    ensures NoDuplicates(a + b)
  {
    forall i, j | 0 <= i < j < |a + b|
      ensures (a + b)[i] != (a + b)[j]
    {
      if i < |a| <= j {
        assert b[j - |a|] in b;
      }
    }
  }

  // ---- the store ------------------------------------------------------------------------------------

  class LayoutStore {
    var cats: seq<Category>

    constructor ()
      ensures cats == []
    {
      cats := [];
    }

    method Save(categories: seq<Category>)
      modifies this
      ensures cats == categories
    {
      var clean: seq<Category> := [];
      for i := 0 to |categories|
        invariant clean == categories[..i]
      {
        clean := clean + [Category(categories[i].name, categories[i].devices)];
      }
      cats := clean;
    }

    method Resolve(names: seq<string>) returns (groups: seq<Category>, leftover: seq<string>)
      ensures groups == Groups(cats, Members(names))
      ensures leftover == Leftover(names, Members(Placed(groups)))
    {
      hide Members, Placed, Groups, Place, Leftover;
      var valid := Members(names);
      var seen: set<string> := {};
      groups := [];
      NothingResolved(valid, seen);
      for i := 0 to |cats|
        invariant groups == Groups(cats[..i], valid) && seen == Members(Placed(groups))
      {
        var placed: seq<string> := [];
        var devices := cats[i].devices;
        placed, seen := PlaceLoop(devices, valid, seen);
        assert cats[..i + 1] == cats[..i] + [cats[i]];
        GroupsPush(cats[..i], cats[i], valid);
        PlacedPush(groups, Category(cats[i].name, placed));
        MembersConcat(Placed(groups), placed);
        groups := groups + [Category(cats[i].name, placed)];
      }
      assert cats[..|cats|] == cats;
      leftover := [];
      NothingResolved(valid, seen);
      for i := 0 to |names|
        invariant leftover == Leftover(names[..i], seen)
      {
        assert names[..i + 1] == names[..i] + [names[i]];
        LeftoverPush(names[..i], names[i], seen);
        if names[i] !in seen {
          leftover := leftover + [names[i]];
        }
      }
      assert names[..|names|] == names;
    }
  }

  lemma NothingResolved(valid: set<string>, seen: set<string>)
    ensures Groups([], valid) == [] && Members(Placed([])) == {} && Leftover([], seen) == []
  {
  }

  lemma LeftoverPush(names: seq<string>, d: string, seen: set<string>)
    ensures Leftover(names + [d], seen) == Leftover(names, seen) + if d in seen then [] else [d]
  {
    assert (names + [d])[..|names|] == names;
  }

  lemma MembersConcat(a: seq<string>, b: seq<string>)
    ensures Members(a + b) == Members(a) + Members(b)
  {
    forall d | d in Members(a) + Members(b)
      ensures d in Members(a + b)
    {
      if i :| 0 <= i < |a| && a[i] == d { assert (a + b)[i] == d; }
      if i :| 0 <= i < |b| && b[i] == d { assert (a + b)[|a| + i] == d; }
    }
  }

  lemma MembersPush(a: seq<string>, d: string)
    ensures Members(a + [d]) == Members(a) + {d}
  {
    MembersConcat(a, [d]);
    assert [d][0] == d;
    assert forall x :: x in Members([d]) <==> x == d;
  }

  /** The inner loop: place what is valid and new, and remember it. */
  method PlaceLoop(devices: seq<string>, valid: set<string>, seen: set<string>)
    returns (placed: seq<string>, seen': set<string>)
    ensures placed == Place(devices, valid, seen) && seen' == seen + Members(placed)
  {
    placed, seen' := [], seen;
    assert Members([]) == {};
    for i := 0 to |devices|
      invariant placed == Place(devices[..i], valid, seen) && seen' == seen + Members(placed)
    {
      assert devices[..i + 1][..i] == devices[..i];
      var d := devices[i];
      if d in valid && d !in seen' {
        MembersPush(placed, d);
        placed := placed + [d];
        seen' := seen' + {d};
      }
    }
    assert devices[..|devices|] == devices;
  }

  // ---- the resolved layout is a partition -----------------------------------------------------------

  lemma {:induction false} CountOnce(s: seq<string>, d: string)
    requires NoDuplicates(s)
    ensures multiset(s)[d] == if d in s then 1 else 0
  {
    if |s| > 0 {
      var n := |s| - 1;
      assert s == s[..n] + [s[n]];
      CountOnce(s[..n], d);
      assert s[n] !in s[..n];
    }
  }

  lemma {:induction false} LeftoverExactly(names: seq<string>, seen: set<string>)
    requires NoDuplicates(names)
    ensures NoDuplicates(Leftover(names, seen))
    ensures forall d :: d in Leftover(names, seen) <==> d in names && d !in seen
  {
    if |names| > 0 {
      var n := |names| - 1;
      assert names == names[..n] + [names[n]];
      LeftoverExactly(names[..n], seen);
      assert names[n] !in names[..n];
    }
  }

  /** Leftovers stand in the order of the device list. */
  lemma {:induction false} LeftoverInOrder(names: seq<string>, seen: set<string>, i: nat, j: nat, a: nat, b: nat)
    requires NoDuplicates(names) && i < j < |Leftover(names, seen)| && a < |names| && b < |names|
    requires Leftover(names, seen)[i] == names[a] && Leftover(names, seen)[j] == names[b]
    ensures a < b
  {
    var n := |names| - 1;
    var before := Leftover(names[..n], seen);
    LeftoverExactly(names[..n], seen);
    if j == |before| {
      assert before[i] in names[..n];
    } else {
      assert before[i] in names[..n] && before[j] in names[..n];
      LeftoverInOrder(names[..n], seen, i, j, a, b);
    }
  }

  ghost predicate NamedBy(cats: seq<Category>, d: string) {
    exists j :: 0 <= j < |cats| && d in cats[j].devices
  }

  /** Placed is every valid device that some category names. */
  lemma {:induction false} PlacedIsNamed(cats: seq<Category>, valid: set<string>, d: string)
    ensures d in Placed(Groups(cats, valid)) <==> d in valid && NamedBy(cats, d)
  {
    hide Groups, Placed, NamedBy;
    if |cats| == 0 {
      NothingNamed(valid, d);
      assert cats == [];
    } else {
      var rest, last := cats[..|cats| - 1], cats[|cats| - 1];
      PlacedIsNamed(rest, valid, d);
      PlacedNamedPush(rest, last, valid, d);
      assert cats == rest + [last];
    }
  }

  lemma NothingNamed(valid: set<string>, d: string)
    ensures d !in Placed(Groups([], valid)) && !NamedBy([], d)
  {
  }

  lemma PlacedNamedPush(cats: seq<Category>, c: Category, valid: set<string>, d: string)
    requires d in Placed(Groups(cats, valid)) <==> d in valid && NamedBy(cats, d)
    ensures d in Placed(Groups(cats + [c], valid)) <==> d in valid && NamedBy(cats + [c], d)
  {
    hide Groups, Placed, Place, Members, NamedBy;
    var before, all := Groups(cats, valid), cats + [c];
    InMembers(Placed(before));
    PlaceExactly(c.devices, valid, Members(Placed(before)));
    GroupsPush(cats, c, valid);
    PlacedPush(before, Groups(all, valid)[|cats|]);
    NamedPush(cats, c, d);
  }

  lemma NamedPush(cats: seq<Category>, c: Category, d: string)
    ensures NamedBy(cats + [c], d) <==> NamedBy(cats, d) || d in c.devices
  {
    var all := cats + [c];
    assert all[|cats|] == c;
    if j :| 0 <= j < |cats| && d in cats[j].devices {
      assert all[j] == cats[j];
    }
  }

  /** Names and order of the categories stay, and a device stands in the first category that names it. */
  lemma {:induction false} FirstNaming(cats: seq<Category>, valid: set<string>, k: nat, d: string)
    requires k < |cats|
    ensures Groups(cats, valid)[k].name == cats[k].name
    ensures d in Groups(cats, valid)[k].devices <==>
      d in valid && d in cats[k].devices && forall j :: 0 <= j < k ==> d !in cats[j].devices
  {
    hide Groups, Placed, Place, Members;
    var n := |cats| - 1;
    assert cats == cats[..n] + [cats[n]];
    GroupsPush(cats[..n], cats[n], valid);
    assert forall j :: 0 <= j < n ==> cats[..n][j] == cats[j];
    if k < n {
      FirstNaming(cats[..n], valid, k, d);
    } else {
      var before := Groups(cats[..n], valid);
      PlacedIsNamed(cats[..n], valid, d);
      InMembers(Placed(before));
      PlaceExactly(cats[n].devices, valid, Members(Placed(before)));
    }
  }

  /**
   * For any saved layout and any duplicate-free device list, the resolved categories and the
   * leftovers together are exactly the device list.
   */
  lemma ResolvePartitions(cats: seq<Category>, names: seq<string>)
    requires NoDuplicates(names)
    ensures var groups := Groups(cats, Members(names));
      multiset(Placed(groups)) + multiset(Leftover(names, Members(Placed(groups)))) == multiset(names)
  {
    var placed := Placed(Groups(cats, Members(names)));
    var left := Leftover(names, Members(placed));
    GroupsDistinct(cats, Members(names));
    LeftoverExactly(names, Members(placed));
    hide Groups, Placed, Leftover;
    forall d
      ensures multiset(placed)[d] + multiset(left)[d] == multiset(names)[d]
    {
      CountOnce(placed, d);
      CountOnce(left, d);
      CountOnce(names, d);
    }
  }

  // ---- checking an incoming layout ------------------------------------------------------------------

  /** The device names of a raw list: what is no string is passed over. */
  function Strings(devices: seq<Option<string>>): seq<string> {
    if |devices| == 0 then []
    else
      var d := devices[|devices| - 1];
      Strings(devices[..|devices| - 1]) + if d.Some? then [d.value] else []
  }

  lemma {:induction false} StringsExactly(devices: seq<Option<string>>, d: string)
    ensures d in Strings(devices) <==> Some(d) in devices
  {
    if |devices| > 0 {
      StringsExactly(devices[..|devices| - 1], d);
      assert devices == devices[..|devices| - 1] + [devices[|devices| - 1]];
    }
  }

  /** In the order of the list. */
  lemma {:induction false} StringsConcat(a: seq<Option<string>>, b: seq<Option<string>>)
    ensures Strings(a + b) == Strings(a) + Strings(b)
  {
    if |b| == 0 {
      assert a + b == a;
    } else {
      StringsConcat(a, b[..|b| - 1]);
      assert (a + b)[..|a + b| - 1] == a + b[..|b| - 1];
    }
  }

  predicate Acceptable(t: Text, r: Raw) {
    r.Raw? && r.name.Some? && NameOk(t, t.strip(r.name.value)) && r.devices.Some?
  }

  /** The name of a category, without surrounding blanks. */
  function NameOf(t: Text, r: Raw): string {
    if r.Raw? && r.name.Some? then t.strip(r.name.value) else ""
  }

  function DevicesOf(r: Raw): seq<string> {
    if r.Raw? && r.devices.Some? then Strings(r.devices.value) else []
  }

  /** Does the whole layout pass: each category acceptable, names distinct up to case? */
  ghost predicate LayoutOk(t: Text, cats: seq<Raw>) {
    (forall i :: 0 <= i < |cats| ==> Acceptable(t, cats[i])) &&
    forall i, j :: 0 <= i < j < |cats| ==> t.fold(NameOf(t, cats[i])) != t.fold(NameOf(t, cats[j]))
  }

  /** The rules for a layout, written out. */
  lemma LayoutOkExactly(t: Text, cats: seq<Raw>)
    ensures LayoutOk(t, cats) <==>
      (forall i :: 0 <= i < |cats| ==>
        cats[i].Raw? && cats[i].name.Some? && cats[i].devices.Some? &&
        var name := t.strip(cats[i].name.value);
        1 <= |name| <= 64 && (forall k :: 0 <= k < |name| ==> name[k] >= ' ' && name[k] as int != 127) &&
        t.fold(name) != "uncategorized") &&
      forall i, j :: 0 <= i < j < |cats| ==>
        t.fold(t.strip(cats[i].name.value)) != t.fold(t.strip(cats[j].name.value))
  {
  }

  /**
   * In a layout that was taken every category keeps its name without surrounding blanks, and a
   * device is in the first category whose list has it, if it is configured.
   */
  lemma CheckedExactly(t: Text, cats: seq<Raw>, valid: set<string>, k: nat, d: string)
    requires LayoutOk(t, cats) && k < |cats|
    ensures var checked := Groups(Named(t, cats), valid);
      |checked| == |cats| && checked[k].name == t.strip(cats[k].name.value) &&
      (d in checked[k].devices <==>
        d in valid && Some(d) in cats[k].devices.value && forall j :: 0 <= j < k ==> Some(d) !in cats[j].devices.value)
  {
    hide Groups, NameOk;
    FirstNaming(Named(t, cats), valid, k, d);
    forall j | 0 <= j <= k
      ensures d in Named(t, cats)[j].devices <==> Some(d) in cats[j].devices.value
    {
      StringsExactly(cats[j].devices.value, d);
    }
  }

  /** The categories before their devices are placed. */
  function Named(t: Text, cats: seq<Raw>): seq<Category> {
    seq(|cats|, i requires 0 <= i < |cats| => Category(NameOf(t, cats[i]), DevicesOf(cats[i])))
  }

  /** The names, up to case, of the categories. */
  function Folded(t: Text, cats: seq<Raw>): seq<string> {
    seq(|cats|, i requires 0 <= i < |cats| => t.fold(NameOf(t, cats[i])))
  }

  lemma FoldedPush(t: Text, cats: seq<Raw>, k: nat)
    requires k < |cats|
    ensures Folded(t, cats[..k + 1]) == Folded(t, cats[..k]) + [t.fold(NameOf(t, cats[k]))]
    ensures Named(t, cats[..k + 1]) == Named(t, cats[..k]) + [Category(NameOf(t, cats[k]), DevicesOf(cats[k]))]
  {
  }

  lemma OkPush(t: Text, cats: seq<Raw>, k: nat)
    requires k < |cats| && LayoutOk(t, cats[..k])
    ensures LayoutOk(t, cats[..k + 1]) <==>
      Acceptable(t, cats[k]) && t.fold(NameOf(t, cats[k])) !in Members(Folded(t, cats[..k]))
  {
    hide Acceptable, NameOf;
    var a, f, n := cats[..k + 1], Folded(t, cats[..k]), t.fold(NameOf(t, cats[k]));
    assert a[k] == cats[k] && forall i :: 0 <= i < k ==> a[i] == cats[..k][i];
    InMembers(f);
    if n in f {
      var i :| 0 <= i < k && f[i] == n;
      assert t.fold(NameOf(t, a[i])) == t.fold(NameOf(t, a[k]));
    } else if Acceptable(t, cats[k]) {
      forall i, j | 0 <= i < j < |a|
        ensures t.fold(NameOf(t, a[i])) != t.fold(NameOf(t, a[j]))
      {
        if j == k { assert f[i] in f; }
      }
    }
  }

  /** A layout with an unacceptable beginning is unacceptable. */
  lemma OkPrefix(t: Text, cats: seq<Raw>, k: nat)
    requires k <= |cats| && LayoutOk(t, cats)
    ensures LayoutOk(t, cats[..k])
  {
    hide Acceptable, NameOf;
  }

  lemma GroupsPush(cats: seq<Category>, c: Category, valid: set<string>)
    ensures Groups(cats + [c], valid) ==
      Groups(cats, valid) + [Category(c.name, Place(c.devices, valid, Members(Placed(Groups(cats, valid)))))]
  {
    assert (cats + [c])[..|cats|] == cats;
  }

  lemma PlacedPush(groups: seq<Category>, c: Category)
    ensures Placed(groups + [c]) == Placed(groups) + c.devices
  {
    assert (groups + [c])[..|groups|] == groups;
  }

  /**
   * A layout is taken exactly when it has at most 50 categories, each acceptable, with distinct
   * names up to case; what comes out is then the sent layout with unknown and repeated devices gone.
   */
  method ValidateLayout(t: Text, raw: Option<seq<Raw>>, valid: set<string>) returns (r: Checked)
    ensures r.Clean? <==> raw.Some? && |raw.value| <= 50 && LayoutOk(t, raw.value)
    ensures r.Clean? ==> r.categories == Groups(Named(t, raw.value), valid)
  {
    hide NameOk, Place, LayoutOk, Groups, Placed, Named, Folded, Members, Strings;
    if raw.None? || |raw.value| > MAX_CATEGORIES {
      return Invalid;
    }
    var cats := raw.value;
    var seenCat: set<string>, seenDev: set<string> := {}, {};
    var clean: seq<Category> := [];
    NothingYet(t, cats, valid);
    for k := 0 to |cats|
      invariant LayoutOk(t, cats[..k])
      invariant seenCat == Members(Folded(t, cats[..k]))
      invariant clean == Groups(Named(t, cats[..k]), valid) && seenDev == Members(Placed(clean))
    {
      OkPush(t, cats, k);
      if LayoutOk(t, cats) { OkPrefix(t, cats, k + 1); }
      var c := cats[k];
      if !Acceptable(t, c) {
        return Invalid;
      }
      var name := t.strip(c.name.value);
      if t.fold(name) in seenCat {
        return Invalid;
      }
      FoldedPush(t, cats, k);
      MembersPush(Folded(t, cats[..k]), t.fold(name));
      seenCat := seenCat + {t.fold(name)};
      var placed;
      var devices := StringsLoop(c.devices.value);
      placed, seenDev := PlaceLoop(devices, valid, seenDev);
      GroupsPush(Named(t, cats[..k]), Category(name, devices), valid);
      PlacedPush(clean, Category(name, placed));
      MembersConcat(Placed(clean), placed);
      clean := clean + [Category(name, placed)];
    }
    assert cats[..|cats|] == cats;
    r := Clean(clean);
  }

  lemma NothingYet(t: Text, cats: seq<Raw>, valid: set<string>)
    ensures LayoutOk(t, cats[..0]) && Members(Folded(t, cats[..0])) == {} && Named(t, cats[..0]) == []
    ensures Groups([], valid) == [] && Members(Placed([])) == {}
  {
  }

  method StringsLoop(devices: seq<Option<string>>) returns (r: seq<string>)
    ensures r == Strings(devices)
  {
    r := [];
    for i := 0 to |devices|
      invariant r == Strings(devices[..i])
    {
      assert devices[..i + 1][..i] == devices[..i];
      if devices[i].Some? {
        r := r + [devices[i].value];
      }
    }
    assert devices[..|devices|] == devices;
  }

  /** A checked layout, saved and resolved against the same devices, comes back exactly as it is. */
  lemma {:induction false} ResolveKeepsChecked(cats: seq<Category>, valid: set<string>)
    ensures Groups(Groups(cats, valid), valid) == Groups(cats, valid)
  {
    if |cats| > 0 {
      var n := |cats| - 1;
      var g, before := Groups(cats, valid), Groups(cats[..n], valid);
      ResolveKeepsChecked(cats[..n], valid);
      assert g[..n] == before;
      var seen := Members(Placed(before));
      PlaceExactly(cats[n].devices, valid, seen);
      hide Place;
      PlaceKeeps(g[n].devices, valid, seen);
    }
  }
}
