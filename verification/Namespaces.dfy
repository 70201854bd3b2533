/** Per-process views of the object store through bind mounts (kernel/namespaces.py). */
module Namespaces {
  import opened Wrappers

  datatype Mode = Before | After | Replace | Union

  datatype Bind = Bind(src: string, dst: string, mode: Mode)

  /** The object store's table from paths to objects. */
  type Store = map<string, string>

  function Stripped(path: string): (stripped: string)
    ensures stripped <= path && (stripped == "" || stripped[|stripped| - 1] != '/')
    ensures forall k | |stripped| <= k < |path| :: path[k] == '/'
  {
    if path == "" || path[|path| - 1] != '/' then path else Stripped(path[..|path| - 1])
  }

  predicate Under(path: string, dst: string) {
    dst <= path && (|path| == |dst| || path[|dst|] == '/')
  }

  /** Where a binding leads. */
  function Mapped(path: string, b: Bind): Option<string> {
    if Under(path, Stripped(b.dst)) then Some(Stripped(b.src) + path[|Stripped(b.dst)|..]) else None
  }

  /** A path at or below the destination leads to the same way on from the source. */
  lemma {:induction false} MappedIff(path: string, b: Bind, place: string)
    ensures Mapped(path, b) == Some(place) <==> exists rest ::
      && path == Stripped(b.dst) + rest && (rest == "" || rest[0] == '/')
      && place == Stripped(b.src) + rest
  {
    var dst := Stripped(b.dst);
    if dst <= path {
      var rest := path[|dst|..];
      assert path == dst + rest;
    }
    if rest :| path == dst + rest && (rest == "" || rest[0] == '/') && place == Stripped(b.src) + rest {
      assert path[|dst|..] == rest;
    }
  }

  /** A path is mapped to the same place whether it is looked up or listed as a directory. */
  method MapPath(path: string, b: Bind, asDirectory: bool) returns (mapped: Option<string>)
    ensures mapped == Mapped(path, b)
  {
    var dst, src := Stripped(b.dst), Stripped(b.src);
    if asDirectory {
      if dst + "/" <= path || path == dst {
        return Some(src + path[|dst|..]);
      }
      return None;
    }
    if path == dst {
      assert src + path[|dst|..] == src;
      return Some(src);
    }
    if dst + "/" <= path {
      assert path[|dst|..] == "/" + path[|dst| + 1..];
      assert src + "/" + path[|dst| + 1..] == src + path[|dst|..];
      return Some(src + "/" + path[|dst| + 1..]);
    }
    return None;
  }

  /* ---------- the store's own directories ---------- */

  function Directory(path: string): string {
    if path != "" && path[|path| - 1] == '/' then path else path + "/"
  }

  predicate IsName(name: string) {
    name != "" && '/' !in name
  }

  /** The child of a directory. */
  function Child(path: string, name: string): string {
    Directory(path) + name
  }

  function Names(store: Store, path: string): set<string> {
    set q <- store | Directory(path) <= q && IsName(q[|Directory(path)|..]) :: q[|Directory(path)|..]
  }

  lemma {:induction false} NamesAreChildren(store: Store, path: string, name: string)
    ensures name in Names(store, path) <==> IsName(name) && Child(path, name) in store
  {
    var n := |Directory(path)|;
    assert Child(path, name)[n..] == name && Directory(path) <= Child(path, name);
    if name in Names(store, path) {
      var q :| q in store && Directory(path) <= q && q[n..] == name && IsName(name);
      assert q == Child(path, name);
    }
  }

  /* ---------- looking up ---------- */

  predicate Early(b: Bind) {
    b.mode in {Before, Replace}
  }

  /** The places the bindings of one kind lead to, in their order; an empty path is no place. */
  function Places(binds: seq<Bind>, path: string, early: bool): seq<string> {
    if binds == [] then []
    else
      var rest, b := Places(binds[..|binds| - 1], path, early), binds[|binds| - 1];
      if Early(b) == early && Mapped(path, b).Some? && Mapped(path, b).value != "" then rest + [Mapped(path, b).value]
      else rest
  }

  /** Bindings before the canonical place, then that, then those after it. */
  function Lookups(binds: seq<Bind>, path: string): seq<string> {
    Places(binds, path, true) + [path] + Places(binds, path, false)
  }

  predicate FirstAt(store: Store, places: seq<string>, k: nat)
    requires k < |places|
  {
    places[k] in store && forall j | 0 <= j < k :: places[j] !in store
  }

  ghost predicate IsFirstFound(store: Store, places: seq<string>, oid: Option<string>) {
    match oid
    case None => forall p <- places :: p !in store
    case Some(o) => exists k :: 0 <= k < |places| && FirstAt(store, places, k) && o == store[places[k]]
  }

  lemma {:induction false} FirstFoundIsUnique(
    store: Store, places: seq<string>, oid: Option<string>, other: Option<string>)
    requires IsFirstFound(store, places, oid) && IsFirstFound(store, places, other)
    ensures oid == other
  {
  }

  /* ---------- listing ---------- */

  predicate ShowsThrough(store: Store, b: Bind, path: string, name: string) {
    Mapped(path, b).Some? && Mapped(path, b).value != "" && name in Names(store, Mapped(path, b).value)
  }

  predicate NoReplace(binds: seq<Bind>) {
    forall b <- binds :: b.mode != Replace
  }

  /** A replacing binding, wherever it is mounted, ends the listing at once. */
  ghost predicate Lists(store: Store, binds: seq<Bind>, path: string, name: string) {
    || (exists i ::
         0 <= i < |binds| && Early(binds[i]) && NoReplace(binds[..i]) && ShowsThrough(store, binds[i], path, name))
    || (NoReplace(binds) && (name in Names(store, path)
        || exists i :: 0 <= i < |binds| && !Early(binds[i]) && ShowsThrough(store, binds[i], path, name)))
  }

  lemma {:induction false} PlacesHave(binds: seq<Bind>, path: string, early: bool, place: string)
    ensures place in Places(binds, path, early) <==>
      exists i :: 0 <= i < |binds| && Early(binds[i]) == early && Mapped(path, binds[i]) == Some(place) && place != ""
    decreases binds
  {
    if binds != [] {
      var front, b := binds[..|binds| - 1], binds[|binds| - 1];
      PlacesHave(front, path, early, place);
      if i :| 0 <= i < |binds| && Early(binds[i]) == early && Mapped(path, binds[i]) == Some(place) && place != "" {
        if i < |front| {
          assert Early(front[i]) == early && Mapped(path, front[i]) == Some(place);
        }
      }
    }
  }

  predicate LeadsTo(store: Store, b: Bind, path: string) {
    Mapped(path, b).Some? && Mapped(path, b).value != "" && Mapped(path, b).value in store
  }

  lemma {:induction false} LookupsHave(binds: seq<Bind>, path: string, place: string)
    ensures place in Lookups(binds, path) <==>
      place == path || exists b <- binds :: Mapped(path, b) == Some(place) && place != ""
  {
    PlacesHave(binds, path, true, place);
    PlacesHave(binds, path, false, place);
    if b :| b in binds && Mapped(path, b) == Some(place) && place != "" {
      var i :| 0 <= i < |binds| && binds[i] == b;
    }
  }

  /** A path resolves exactly if it, or what some binding maps it to, is in the store. */
  lemma {:induction false} FoundIff(store: Store, binds: seq<Bind>, path: string, oid: Option<string>)
    requires IsFirstFound(store, Lookups(binds, path), oid)
    ensures oid.Some? <==> path in store || exists b <- binds :: LeadsTo(store, b, path)
  {
    var places := Lookups(binds, path);
    if oid.Some? {
      var k :| 0 <= k < |places| && FirstAt(store, places, k);
      LookupsHave(binds, path, places[k]);
    } else {
      LookupsHave(binds, path, path);
      forall b | b in binds
        ensures !LeadsTo(store, b, path)
      {
        if Mapped(path, b).Some? {
          LookupsHave(binds, path, Mapped(path, b).value);
        }
      }
    }
  }

  /** What a child's path adds to the place a binding is mounted at, given what the directory's adds. */
  function Tail(rest: string, name: string): string {
    (if rest == "" then "/" else Directory(rest)) + name
  }

  lemma {:induction false} ChildBelow(place: string, rest: string, name: string)
    requires rest == "" && place != "" ==> place[|place| - 1] != '/'
    ensures Child(place + rest, name) == place + Tail(rest, name)
  {
    var tail := if rest == "" then "/" else Directory(rest);
    if rest == "" {
      assert place + rest == place;
    }
    assert Directory(place + rest) == place + tail;
    assert (place + tail) + name == place + (tail + name);
  }

  /** Under a binding the children of a directory are the children of where it leads. */
  lemma {:induction false} ChildMaps(path: string, name: string, b: Bind)
    requires Mapped(path, b).Some?
    ensures Mapped(Child(path, name), b) == Some(Child(Mapped(path, b).value, name))
  {
    var rest := path[|Stripped(b.dst)|..];
    assert path == Stripped(b.dst) + rest;
    ChildBelow(Stripped(b.dst), rest, name);
    ChildBelow(Stripped(b.src), rest, name);
  }

  /* ---------- listing against looking up ---------- */

  lemma {:induction false} ShowsThroughIff(store: Store, b: Bind, path: string, name: string)
    requires IsName(name)
    ensures ShowsThrough(store, b, path, name) <==>
      && LeadsTo(store, b, Child(path, name)) && Stripped(b.dst) != Child(path, name)
      && !(path == Stripped(b.dst) && Stripped(b.src) == "")
  {
    if Mapped(path, b).Some? {
      ChildMaps(path, name, b);
      NamesAreChildren(store, Mapped(path, b).value, name);
    }
  }

  /** Every name a listing shows resolves. */
  lemma {:induction false} ListedResolves(
    store: Store, binds: seq<Bind>, path: string, name: string, oid: Option<string>)
    requires Lists(store, binds, path, name)
    requires IsFirstFound(store, Lookups(binds, Child(path, name)), oid)
    ensures oid.Some?
  {
    FoundIff(store, binds, Child(path, name), oid);
    if name in Names(store, path) && NoReplace(binds) {
      NamesAreChildren(store, path, name);
    } else {
      var i :| 0 <= i < |binds| && ShowsThrough(store, binds[i], path, name);
      ShownIsLedTo(store, binds[i], path, name);
      assert binds[i] in binds;
    }
  }

  lemma {:induction false} ShownIsLedTo(store: Store, b: Bind, path: string, name: string)
    requires ShowsThrough(store, b, path, name)
    ensures IsName(name) && LeadsTo(store, b, Child(path, name))
  {
    NamesAreChildren(store, Mapped(path, b).value, name);
    ChildMaps(path, name, b);
  }

  /**
   Bindings through which a child can be looked up but not seen: one mounted at it, or the root's mounted
   at the directory.
   */
  predicate Conceals(b: Bind, path: string, name: string) {
    Stripped(b.dst) == Child(path, name) || (path == Stripped(b.dst) && Stripped(b.src) == "")
  }

  /**
   Without replacing bindings a directory lists just the children that resolve by other means than a
   concealing binding.
   */
  lemma {:induction false} ListsIff(store: Store, binds: seq<Bind>, path: string, name: string)
    requires NoReplace(binds) && IsName(name)
    ensures Lists(store, binds, path, name) <==>
      (|| Child(path, name) in store
       || exists b <- binds :: LeadsTo(store, b, Child(path, name)) && !Conceals(b, path, name))
  {
    NamesAreChildren(store, path, name);
    forall b | b in binds
      ensures ShowsThrough(store, b, path, name) <==> LeadsTo(store, b, Child(path, name)) && !Conceals(b, path, name)
    {
      ShowsThroughIff(store, b, path, name);
    }
    if b :| b in binds && ShowsThrough(store, b, path, name) {
      var i :| 0 <= i < |binds| && binds[i] == b;
      assert forall c <- binds[..i] :: c in binds;
      assert NoReplace(binds[..i]);
    }
  }

  /** So where nothing is concealed or replaced, listing and looking up agree. */
  lemma {:induction false} ListedIffResolves(store: Store, binds: seq<Bind>, path: string, name: string,
                                             oid: Option<string>)
    requires NoReplace(binds) && IsName(name) && forall b <- binds :: !Conceals(b, path, name)
    requires IsFirstFound(store, Lookups(binds, Child(path, name)), oid)
    ensures Lists(store, binds, path, name) <==> oid.Some?
  {
    ListsIff(store, binds, path, name);
    FoundIff(store, binds, Child(path, name), oid);
  }

  /** The names shown by the bindings of one kind among the first i. */
  ghost predicate ShownBy(store: Store, binds: seq<Bind>, i: nat, early: bool, path: string, name: string) {
    exists j :: 0 <= j < i && j < |binds| && Early(binds[j]) == early && ShowsThrough(store, binds[j], path, name)
  }

  lemma {:induction false} NoReplaceSoFar(binds: seq<Bind>, i: nat, j: nat)
    requires i < |binds| && j <= |binds| && NoReplace(binds[..j]) && binds[i].mode == Replace
    ensures j <= i
  {
    assert forall k | 0 <= k < j :: binds[..j][k] in binds[..j];
  }

  /** With a replacing binding, a listing shows what the early bindings up to the first such one show. */
  lemma {:induction false} ReplaceEndsListing(store: Store, binds: seq<Bind>, i: nat, path: string, name: string)
    requires i < |binds| && NoReplace(binds[..i]) && binds[i].mode == Replace
    ensures Lists(store, binds, path, name) <==> ShownBy(store, binds, i + 1, true, path, name)
  {
    assert binds[i] in binds;
    if j: nat :| j < |binds| && Early(binds[j]) && NoReplace(binds[..j]) && ShowsThrough(store, binds[j], path, name) {
      NoReplaceSoFar(binds, i, j);
    }
    if j :| 0 <= j < i + 1 && Early(binds[j]) && ShowsThrough(store, binds[j], path, name) {
      assert forall b <- binds[..j] :: b in binds[..i];
    }
  }

  /**
   A replacing binding, wherever it is mounted, decides all listings: a child is listed exactly if it resolves
   through a binding of the early kind no later than the first replacing one, and that binding does not
   conceal it.  So a child that resolves otherwise, canonically or through a later or a concealing binding,
   is missing from the listing.
   */
  lemma {:induction false} ReplaceListsIff(store: Store, binds: seq<Bind>, i: nat, path: string, name: string,
                                           oid: Option<string>)
    requires i < |binds| && NoReplace(binds[..i]) && binds[i].mode == Replace && IsName(name)
    requires IsFirstFound(store, Lookups(binds, Child(path, name)), oid)
    ensures Lists(store, binds, path, name) <==> SeenUpTo(store, binds, i, path, name)
    ensures oid.Some? && !Lists(store, binds, path, name) <==>
      ((Child(path, name) in store || exists b <- binds :: LeadsTo(store, b, Child(path, name)))
      && !SeenUpTo(store, binds, i, path, name))
  {
    ReplaceEndsListing(store, binds, i, path, name);
    FoundIff(store, binds, Child(path, name), oid);
    forall j | 0 <= j <= i
      ensures ShowsThrough(store, binds[j], path, name)
        <==> LeadsTo(store, binds[j], Child(path, name)) && !Conceals(binds[j], path, name)
    {
      ShowsThroughIff(store, binds[j], path, name);
    }
  }

  ghost predicate SeenUpTo(store: Store, binds: seq<Bind>, i: nat, path: string, name: string)
    requires i < |binds|
  {
    exists j :: 0 <= j <= i && binds[j].mode in {Before, Replace}
      && LeadsTo(store, binds[j], Child(path, name)) && !Conceals(binds[j], path, name)
  }

  /**
   Nor does a binding replace what it is mounted over: a path of the store is hidden exactly if a binding of
   the early kind leads to something, and resolves as before if the source lacks it.
   */
  lemma {:induction false} HiddenIff(store: Store, binds: seq<Bind>, path: string, oid: Option<string>)
    requires path in store && IsFirstFound(store, Lookups(binds, path), oid)
    ensures if exists b <- binds :: b.mode in {Before, Replace} && LeadsTo(store, b, path)
      then oid.Some? && IsFirstFound(store, Places(binds, path, true), oid)
      else oid == Some(store[path])
  {
    var places, front := Lookups(binds, path), Places(binds, path, true);
    assert places[|front|] == path;
    var k :| 0 <= k < |places| && FirstAt(store, places, k) && oid.value == store[places[k]];
    assert k <= |front|;
    assert forall j | 0 <= j < |front| :: places[j] == front[j];
    if b :| b in binds && b.mode in {Before, Replace} && LeadsTo(store, b, path) {
      var i :| 0 <= i < |binds| && binds[i] == b;
      PlacesHave(binds, path, true, Mapped(path, b).value);
      var j :| 0 <= j < |front| && front[j] == Mapped(path, b).value;
      assert k < |front|;
      assert FirstAt(store, front, k);
    } else if k < |front| {
      PlacesHave(binds, path, true, front[k]);
      var i :| 0 <= i < |binds| && Early(binds[i]) && Mapped(path, binds[i]) == Some(front[k]) && front[k] != "";
      assert binds[i] in binds && LeadsTo(store, binds[i], path);
      assert false;
    }
  }

  lemma {:induction false} PlacesGrow(binds: seq<Bind>, path: string, early: bool, i: nat)
    requires i <= |binds|
    ensures Places(binds[..i], path, early) <= Places(binds, path, early)
    decreases |binds|
  {
    if i < |binds| {
      PlacesGrow(binds[..|binds| - 1], path, early, i);
      assert binds[..|binds| - 1][..i] == binds[..i];
    } else {
      assert binds[..i] == binds;
    }
  }

  lemma {:induction false} FirstFoundAt(store: Store, places: seq<string>, before: seq<string>, place: string)
    requires before + [place] <= places && place in store && forall p <- before :: p !in store
    ensures IsFirstFound(store, places, Some(store[place]))
  {
    assert places[|before|] == place && forall j | 0 <= j < |before| :: places[j] == before[j];
    assert FirstAt(store, places, |before|);
  }

  lemma {:induction false} FoundInFront(store: Store, a: seq<string>, b: seq<string>, oid: Option<string>)
    requires IsFirstFound(store, a, oid) && oid.Some?
    ensures IsFirstFound(store, a + b, oid)
  {
    var k :| 0 <= k < |a| && FirstAt(store, a, k) && oid.value == store[a[k]];
    assert FirstAt(store, a + b, k);
  }

  lemma {:induction false} NotFoundInFront(store: Store, a: seq<string>, b: seq<string>, oid: Option<string>)
    requires IsFirstFound(store, a, None) && IsFirstFound(store, b, oid)
    ensures IsFirstFound(store, a + b, oid)
  {
    if oid.Some? {
      var k :| 0 <= k < |b| && FirstAt(store, b, k) && oid.value == store[b[k]];
      forall j | 0 <= j < |a| + k
        ensures (a + b)[j] !in store
      {
        assert (a + b)[j] == if j < |a| then a[j] else b[j - |a|];
      }
      assert FirstAt(store, a + b, |a| + k);
    }
  }

  lemma {:induction false} ShownByNext(store: Store, binds: seq<Bind>, i: nat, early: bool, path: string, name: string)
    requires i < |binds|
    ensures ShownBy(store, binds, i + 1, early, path, name) <==>
      (ShownBy(store, binds, i, early, path, name)
      || (Early(binds[i]) == early && ShowsThrough(store, binds[i], path, name)))
  {
  }

  lemma {:induction false} ListingWithoutReplace(store: Store, binds: seq<Bind>, path: string, name: string)
    requires NoReplace(binds)
    ensures Lists(store, binds, path, name) <==>
      (name in Names(store, path) || ShownBy(store, binds, |binds|, true, path, name)
      || ShownBy(store, binds, |binds|, false, path, name))
  {
    if j :| 0 <= j < |binds| && Early(binds[j]) && ShowsThrough(store, binds[j], path, name) {
      assert forall b <- binds[..j] :: b in binds;
    }
  }

  /* ---------- the order of the modes ---------- */

  /** Binding i is the first with one of the modes that leads to something. */
  ghost predicate FirstHit(store: Store, binds: seq<Bind>, path: string, modes: set<Mode>, i: nat) {
    && i < |binds| && binds[i].mode in modes && LeadsTo(store, binds[i], path)
    && forall j | 0 <= j < i :: binds[j].mode in modes ==> !LeadsTo(store, binds[j], path)
  }

  ghost predicate NoHit(store: Store, binds: seq<Bind>, path: string, modes: set<Mode>) {
    forall b <- binds :: b.mode in modes ==> !LeadsTo(store, b, path)
  }

  /**
   A binding with mode before or replace comes first, in the order of the bindings; then the path itself; and
   one with mode after or union only where all of those fail.
   */
  ghost predicate ResolvesTo(store: Store, binds: seq<Bind>, path: string, oid: Option<string>) {
    && (forall i: nat | FirstHit(store, binds, path, {Before, Replace}, i) ::
         oid == Some(store[Mapped(path, binds[i]).value]))
    && (NoHit(store, binds, path, {Before, Replace}) && path in store ==> oid == Some(store[path]))
    && (NoHit(store, binds, path, {Before, Replace}) && path !in store ==>
         (forall i: nat | FirstHit(store, binds, path, {After, Union}, i) ::
           oid == Some(store[Mapped(path, binds[i]).value]))
         && (NoHit(store, binds, path, {After, Union}) ==> oid == None))
  }

  lemma {:induction false} SomeFirstHit(store: Store, binds: seq<Bind>, path: string, modes: set<Mode>)
    returns (i: nat)
    requires !NoHit(store, binds, path, modes)
    ensures FirstHit(store, binds, path, modes, i)
  {
    var front, last := binds[..|binds| - 1], binds[|binds| - 1];
    assert binds == front + [last];
    if NoHit(store, front, path, modes) {
      i := |front|;
      assert forall j | 0 <= j < i :: binds[j] == front[j] && front[j] in front;
    } else {
      i := SomeFirstHit(store, front, path, modes);
      assert forall j | 0 <= j <= i :: binds[j] == front[j];
    }
  }

  lemma {:induction false} ModesAreTwoKinds(b: Bind)
    ensures Early(b) <==> b.mode in {Before, Replace}
    ensures !Early(b) <==> b.mode in {After, Union}
  {
    match b.mode
    case Before =>
    case After =>
    case Replace =>
    case Union =>
  }

  lemma {:induction false} NoPlaceInStore(store: Store, binds: seq<Bind>, path: string, early: bool)
    requires NoHit(store, binds, path, if early then {Before, Replace} else {After, Union})
    ensures IsFirstFound(store, Places(binds, path, early), None)
  {
    forall p | p in Places(binds, path, early)
      ensures p !in store
    {
      PlacesHave(binds, path, early, p);
      var i :| 0 <= i < |binds| && Early(binds[i]) == early && Mapped(path, binds[i]) == Some(p) && p != "";
      ModesAreTwoKinds(binds[i]);
      assert binds[i] in binds && !LeadsTo(store, binds[i], path);
    }
  }

  lemma {:induction false} HitIsFirstPlace(store: Store, binds: seq<Bind>, path: string, early: bool, i: nat)
    requires FirstHit(store, binds, path, if early then {Before, Replace} else {After, Union}, i)
    ensures IsFirstFound(store, Places(binds, path, early), Some(store[Mapped(path, binds[i]).value]))
  {
    var place := Mapped(path, binds[i]).value;
    assert binds[..i + 1][..i] == binds[..i];
    PlacesGrow(binds, path, early, i + 1);
    NoPlaceInStore(store, binds[..i], path, early);
    FirstFoundAt(store, Places(binds, path, early), Places(binds[..i], path, early), place);
  }

  /** What a path resolves to is decided by the modes in that order. */
  lemma {:induction false} ResolvedByMode(store: Store, binds: seq<Bind>, path: string, oid: Option<string>)
    requires IsFirstFound(store, Lookups(binds, path), oid)
    ensures ResolvesTo(store, binds, path, oid)
  {
    var front, back := Places(binds, path, true), Places(binds, path, false);
    if NoHit(store, binds, path, {Before, Replace}) {
      NoPlaceInStore(store, binds, path, true);
      if path in store {
        assert FirstAt(store, [path], 0);
        NotFoundInFront(store, front, [path], Some(store[path]));
        FoundInFront(store, front + [path], back, Some(store[path]));
        FirstFoundIsUnique(store, Lookups(binds, path), oid, Some(store[path]));
      } else {
        NotFoundInFront(store, front, [path], None);
        var late := LateResult(store, binds, path);
        NotFoundInFront(store, front + [path], back, late);
        FirstFoundIsUnique(store, Lookups(binds, path), oid, late);
      }
    } else {
      var i := SomeFirstHit(store, binds, path, {Before, Replace});
      var found := Some(store[Mapped(path, binds[i]).value]);
      HitIsFirstPlace(store, binds, path, true, i);
      FoundInFront(store, front, [path], found);
      FoundInFront(store, front + [path], back, found);
      FirstFoundIsUnique(store, Lookups(binds, path), oid, found);
      assert binds[i] in binds;
    }
  }

  lemma {:induction false} LateResult(store: Store, binds: seq<Bind>, path: string) returns (late: Option<string>)
    ensures IsFirstFound(store, Places(binds, path, false), late)
    ensures forall i: nat | FirstHit(store, binds, path, {After, Union}, i) ::
      late == Some(store[Mapped(path, binds[i]).value])
    ensures NoHit(store, binds, path, {After, Union}) ==> late == None
  {
    if NoHit(store, binds, path, {After, Union}) {
      NoPlaceInStore(store, binds, path, false);
      late := None;
      assert forall i | 0 <= i < |binds| :: binds[i] in binds;
    } else {
      var i := SomeFirstHit(store, binds, path, {After, Union});
      HitIsFirstPlace(store, binds, path, false, i);
      late := Some(store[Mapped(path, binds[i]).value]);
    }
  }

  /**
   A path of the store resolves to its own object exactly if no before or replace binding leads to anything, or the
   first that does leads to the same object.
   */
  lemma {:induction false} StoredPathIff(store: Store, binds: seq<Bind>, path: string, oid: Option<string>)
    requires path in store && IsFirstFound(store, Lookups(binds, path), oid)
    ensures oid == Some(store[path]) <==>
      || NoHit(store, binds, path, {Before, Replace})
      || exists i: nat :: FirstHit(store, binds, path, {Before, Replace}, i)
           && store[Mapped(path, binds[i]).value] == store[path]
  {
    ResolvedByMode(store, binds, path, oid);
    if !NoHit(store, binds, path, {Before, Replace}) {
      var i := SomeFirstHit(store, binds, path, {Before, Replace});
    }
  }

  /** The store has an object of this name in the directory. */
  predicate HasChild(store: Store, dir: string, name: string) {
    && name != "" && '/' !in name
    && (if dir != "" && dir[|dir| - 1] == '/' then dir + name in store else dir + "/" + name in store)
  }

  predicate ShowsChild(store: Store, b: Bind, path: string, name: string) {
    Mapped(path, b).Some? && Mapped(path, b).value != "" && HasChild(store, Mapped(path, b).value, name)
  }

  /**
   A directory lists what the before and replace bindings show, up to the first that replaces; and if none does,
   also its own children and what the after and union bindings show.
   */
  ghost predicate ListedByMode(store: Store, binds: seq<Bind>, path: string, name: string) {
    || (exists i: nat :: i < |binds| && binds[i].mode in {Before, Replace} && ShowsChild(store, binds[i], path, name)
         && forall j | 0 <= j < i :: binds[j].mode != Replace)
    || ((forall b <- binds :: b.mode != Replace)
         && (HasChild(store, path, name)
             || exists i: nat ::
                  i < |binds| && binds[i].mode in {After, Union} && ShowsChild(store, binds[i], path, name)))
  }

  lemma {:induction false} ShowsChildIff(store: Store, b: Bind, path: string, name: string)
    ensures ShowsThrough(store, b, path, name) <==> ShowsChild(store, b, path, name)
    ensures name in Names(store, path) <==> HasChild(store, path, name)
  {
    NamesAreChildren(store, path, name);
    if Mapped(path, b).Some? {
      NamesAreChildren(store, Mapped(path, b).value, name);
    }
  }

  lemma {:induction false} ListsByMode(store: Store, binds: seq<Bind>, path: string, name: string)
    ensures Lists(store, binds, path, name) <==> ListedByMode(store, binds, path, name)
  {
    ShowsChildIff(store, Bind("", "", Before), path, name);
    forall i: nat | i < |binds|
      ensures ShowsThrough(store, binds[i], path, name) <==> ShowsChild(store, binds[i], path, name)
      ensures NoReplace(binds[..i]) <==> forall j | 0 <= j < i :: binds[j].mode != Replace
      ensures Early(binds[i]) <==> binds[i].mode in {Before, Replace}
      ensures !Early(binds[i]) <==> binds[i].mode in {After, Union}
    {
      ShowsChildIff(store, binds[i], path, name);
      NoReplaceBefore(binds, i);
      ModesAreTwoKinds(binds[i]);
    }
  }

  lemma {:induction false} NoReplaceBefore(binds: seq<Bind>, i: nat)
    requires i <= |binds|
    ensures NoReplace(binds[..i]) <==> forall j | 0 <= j < i :: binds[j].mode != Replace
  {
    assert forall j | 0 <= j < i :: binds[j] in binds[..i];
  }

  /* ---------- the namespace ---------- */

  function Unbound(binds: seq<Bind>, dst: string): seq<Bind> {
    if binds == [] then []
    else
      var rest, b := Unbound(binds[..|binds| - 1], dst), binds[|binds| - 1];
      if b.dst == dst then rest else rest + [b]
  }

  ghost predicate OncePerDestination(binds: seq<Bind>) {
    forall i, j | 0 <= i < j < |binds| :: binds[i].dst != binds[j].dst
  }

  lemma {:induction false} UnboundKeepsOthers(binds: seq<Bind>, dst: string)
    ensures forall b :: b in Unbound(binds, dst) <==> b in binds && b.dst != dst
    ensures |Unbound(binds, dst)| < |binds| <==> exists b <- binds :: b.dst == dst
    ensures |Unbound(binds, dst)| <= |binds|
    decreases binds
  {
    if binds != [] {
      var front, last := binds[..|binds| - 1], binds[|binds| - 1];
      UnboundKeepsOthers(front, dst);
      assert binds == front + [last];
    }
  }

  /** The others stay in their order. */
  lemma {:induction false} UnboundSplits(a: seq<Bind>, b: seq<Bind>, dst: string)
    ensures Unbound(a + b, dst) == Unbound(a, dst) + Unbound(b, dst)
    decreases b
  {
    var all := a + b;
    if b == [] {
      assert all == a;
    } else {
      assert all[..|all| - 1] == a + b[..|b| - 1];
      UnboundSplits(a, b[..|b| - 1], dst);
    }
  }

  /** Unbinding leaves destinations unique. */
  lemma {:induction false} UnboundKeepsUnique(binds: seq<Bind>, dst: string)
    requires OncePerDestination(binds)
    ensures OncePerDestination(Unbound(binds, dst))
    decreases binds
  {
    if binds != [] {
      var front := binds[..|binds| - 1];
      UnboundKeepsUnique(front, dst);
      UnboundKeepsOthers(front, dst);
    }
  }

  class Namespace {
    var binds: seq<Bind>

    ghost predicate Valid()
      reads this
    {
      OncePerDestination(binds)
    }

    constructor (parent: seq<Bind>)
      requires OncePerDestination(parent)
      ensures Valid() && binds == parent
    {
      binds := parent;
    }

    method Clone() returns (clone: Namespace)
      requires Valid()
      ensures fresh(clone) && clone.Valid() && clone.binds == binds
    {
      clone := new Namespace(binds);
    }

    method Mount(src: string, dst: string, mode: Mode)
      requires Valid()
      modifies this
      ensures Valid() && binds == Unbound(old(binds), dst) + [Bind(src, dst, mode)]
    {
      UnboundKeepsOthers(binds, dst);
      UnboundKeepsUnique(binds, dst);
      binds := Unbound(binds, dst) + [Bind(src, dst, mode)];
    }

    method Unmount(dst: string) returns (removed: bool)
      requires Valid()
      modifies this
      ensures Valid() && binds == Unbound(old(binds), dst)
      ensures removed <==> exists b <- old(binds) :: b.dst == dst
    {
      UnboundKeepsOthers(binds, dst);
      UnboundKeepsUnique(binds, dst);
      var before := |binds|;
      binds := Unbound(binds, dst);
      removed := |binds| < before;
    }

    /** The first hit through the bindings of one kind. */
    method Search(store: Store, path: string, early: bool) returns (oid: Option<string>)
      ensures IsFirstFound(store, Places(binds, path, early), oid)
    {
      var i := 0;
      while i < |binds|
        invariant i <= |binds| && forall p <- Places(binds[..i], path, early) :: p !in store
      {
        assert binds[..i + 1][..i] == binds[..i];
        if Early(binds[i]) == early {
          var mapped := MapPath(path, binds[i], false);
          if mapped.Some? && mapped.value != "" && mapped.value in store {
            PlacesGrow(binds, path, early, i + 1);
            FirstFoundAt(store, Places(binds, path, early), Places(binds[..i], path, early), mapped.value);
            return Some(store[mapped.value]);
          }
        }
        i := i + 1;
      }
      assert binds[..|binds|] == binds;
      return None;
    }

    method Resolve(store: Store, path: string) returns (oid: Option<string>)
      ensures IsFirstFound(store, Lookups(binds, path), oid)
      ensures ResolvesTo(store, binds, path, oid)
    {
      oid := FindFirst(store, path);
      ResolvedByMode(store, binds, path, oid);
    }

    method FindFirst(store: Store, path: string) returns (oid: Option<string>)
      ensures IsFirstFound(store, Lookups(binds, path), oid)
    {
      ghost var front, back := Places(binds, path, true), Places(binds, path, false);
      oid := Search(store, path, true);
      if oid.Some? {
        FoundInFront(store, front, [path], oid);
        FoundInFront(store, front + [path], back, oid);
        return;
      }
      if path in store {
        assert FirstAt(store, [path], 0);
        NotFoundInFront(store, front, [path], Some(store[path]));
        FoundInFront(store, front + [path], back, Some(store[path]));
        return Some(store[path]);
      }
      NotFoundInFront(store, front, [path], None);
      oid := Search(store, path, false);
      NotFoundInFront(store, front + [path], back, oid);
    }

    /** What one binding shows of a directory. */
    method ListThrough(store: Store, b: Bind, path: string) returns (names: set<string>)
      ensures forall name :: name in names <==> ShowsThrough(store, b, path, name)
    {
      var mapped := MapPath(path, b, true);
      names := if mapped.Some? && mapped.value != "" then Names(store, mapped.value) else {};
    }

    method ListAll(store: Store, path: string, early: bool) returns (names: set<string>, ended: bool)
      ensures !ended ==> forall name :: name in names <==> ShownBy(store, binds, |binds|, early, path, name)
      ensures early ==> (ended <==> !NoReplace(binds))
      ensures !early ==> !ended
      ensures ended ==> forall name :: name in names <==> Lists(store, binds, path, name)
    {
      names := {};
      var i := 0;
      while i < |binds|
        invariant i <= |binds|
        invariant forall name :: name in names <==> ShownBy(store, binds, i, early, path, name)
        invariant early ==> NoReplace(binds[..i])
      {
        forall name
          ensures ShownBy(store, binds, i + 1, early, path, name) <==>
            (ShownBy(store, binds, i, early, path, name)
            || (Early(binds[i]) == early && ShowsThrough(store, binds[i], path, name)))
        {
          ShownByNext(store, binds, i, early, path, name);
        }
        if Early(binds[i]) == early {
          var more := ListThrough(store, binds[i], path);
          names := names + more;
        }
        if early && binds[i].mode == Replace {
          forall name
            ensures name in names <==> Lists(store, binds, path, name)
          {
            ReplaceEndsListing(store, binds, i, path, name);
          }
          assert binds[i] in binds;
          return names, true;
        }
        assert binds[..i + 1] == binds[..i] + [binds[i]];
        i := i + 1;
      }
      assert binds[..|binds|] == binds;
      return names, false;
    }

    method Listdir(store: Store, path: string) returns (names: set<string>)
      ensures forall name :: name in names <==> ListedByMode(store, binds, path, name)
    {
      names := ListMerged(store, path);
      forall name
        ensures Lists(store, binds, path, name) <==> ListedByMode(store, binds, path, name)
      {
        ListsByMode(store, binds, path, name);
      }
    }

    method ListMerged(store: Store, path: string) returns (names: set<string>)
      ensures forall name :: name in names <==> Lists(store, binds, path, name)
    {
      var ended;
      names, ended := ListAll(store, path, true);
      if ended {
        return;
      }
      var late, _ := ListAll(store, path, false);
      forall name
        ensures name in names + Names(store, path) + late <==> Lists(store, binds, path, name)
      {
        ListingWithoutReplace(store, binds, path, name);
      }
      names := names + Names(store, path) + late;
    }
  }

  /** A clone starts with its parent's bindings, and neither sees what the other binds from then on. */
  method ForkAndChange(parent: Namespace, forChild: Bind, forParent: Bind) returns (child: Namespace)
    requires parent.Valid()
    modifies parent
    ensures fresh(child) && child.Valid() && parent.Valid()
    ensures child.binds == Unbound(old(parent.binds), forChild.dst) + [forChild]
    ensures parent.binds == Unbound(old(parent.binds), forParent.dst) + [forParent]
  {
    child := parent.Clone();
    child.Mount(forChild.src, forChild.dst, forChild.mode);
    parent.Mount(forParent.src, forParent.dst, forParent.mode);
  }
}
