/**
  The set of requested response fields and its cache key (repository/field_set.go).

  A name set is turned into a key by sorting and joining with commas. The key is canonical - it
  does not depend on the order in which the map yields its names - and, for names without commas
  that are not "*" or "-" (GraphQL names are such), it determines what the set wants.
 */
module FieldSet {
  import Sequences

  datatype FieldSet = All | Names(names: set<string>)

  /** NewFieldSet. */
  method NewFieldSet(names: seq<string>) returns (fields: FieldSet)
    ensures fields.Names? && forall n :: n in fields.names <==> n in names
  {
    var s: set<string> := {};
    for i := 0 to |names|
      invariant forall n :: n in s <==> n in names[..i]
    {
      s := s + {names[i]};
    }
    return Names(s);
  }

  /** Wants: some of the names is requested. */
  predicate Wants(fields: FieldSet, names: seq<string>) {
    fields.All? || exists i :: 0 <= i < |names| && names[i] in fields.names
  }

  method ComputeWants(fields: FieldSet, names: seq<string>) returns (r: bool)
    ensures r == Wants(fields, names)
  {
    if fields.All? {
      return true;
    }
    for i := 0 to |names|
      invariant forall j :: 0 <= j < i ==> names[j] !in fields.names
    {
      if names[i] in fields.names {
        return true;
      }
    }
    return false;
  }

  /** Two field sets answer every question alike. */
  ghost predicate SameWants(a: FieldSet, b: FieldSet) {
    forall names: seq<string> :: Wants(a, names) == Wants(b, names)
  }

  // ----- The order of strings

  /** Go's string comparison: by code point, a proper prefix first. */
  predicate Less(a: string, b: string) {
    b != [] && (a == [] || a[0] < b[0] || (a[0] == b[0] && Less(a[1..], b[1..])))
  }

  lemma {:induction false} LessIsTotal(a: string, b: string)
    ensures Less(a, b) || Less(b, a) || a == b
  {
    if a != [] && b != [] && a[0] == b[0] {
      LessIsTotal(a[1..], b[1..]);
      assert a == [a[0]] + a[1..] && b == [b[0]] + b[1..];
    }
  }

  lemma {:induction false} LessIsTransitive(a: string, b: string, c: string)
    requires Less(a, b) && Less(b, c)
    ensures Less(a, c)
  {
    if a != [] && a[0] == b[0] == c[0] {
      LessIsTransitive(a[1..], b[1..], c[1..]);
    }
  }

  lemma {:induction false} LessIsIrreflexive(a: string)
    ensures !Less(a, a)
  {
    if a != [] {
      LessIsIrreflexive(a[1..]);
    }
  }

  ghost predicate Ascending(s: seq<string>) {
    forall i, j :: 0 <= i < j < |s| ==> Less(s[i], s[j])
  }

  ghost function Members(s: seq<string>): set<string> {
    set x | x in s
  }

  /** A set has only one ascending listing. */
  lemma AscendingIsUnique(a: seq<string>, b: seq<string>)
    requires Ascending(a) && Ascending(b) && Members(a) == Members(b)
    ensures a == b
  {
    forall x, y | Less(x, y)
      ensures !Less(y, x)
    {
      if Less(y, x) {
        LessIsTransitive(x, y, x);
        LessIsIrreflexive(x);
      }
    }
    assert forall x :: x in a <==> x in Members(a);
    Sequences.SortedIsUnique(Less, a, b);
  }

  // ----- CacheKey

  const ALL_KEY := "*"
  const NONE_KEY := "-"
  const COMMA := ','

  /** strings.Join with a comma. */
  function Join(names: seq<string>): string {
    if names == [] then ""
    else if |names| == 1 then names[0]
    else names[0] + [COMMA] + Join(names[1..])
  }

  /** `listing` shows the names of the set in ascending order. */
  ghost predicate Lists(listing: seq<string>, names: set<string>) {
    Ascending(listing) && Members(listing) == names
  }

  /** `key` is a key of `fields`. */
  ghost predicate IsKey(fields: FieldSet, key: string) {
    match fields
    case All => key == ALL_KEY
    case Names(names) =>
      if names == {} then key == NONE_KEY else exists listing :: Lists(listing, names) && key == Join(listing)
  }

  /** Where a name belongs: everything before is less, everything from there on greater. */
  ghost predicate BelongsAt(sorted: seq<string>, name: string, k: nat) {
    && k <= |sorted|
    && (forall j :: 0 <= j < k ==> Less(sorted[j], name))
    && (forall j :: k <= j < |sorted| ==> Less(name, sorted[j]))
  }

  lemma InsertedAt(sorted: seq<string>, name: string, k: nat)
    requires Ascending(sorted) && BelongsAt(sorted, name, k)
    ensures Lists(sorted[..k] + [name] + sorted[k..], Members(sorted) + {name})
  {
    var r := sorted[..k] + [name] + sorted[k..];
    assert sorted == sorted[..k] + sorted[k..];
    assert forall x :: x in r <==> x in sorted || x == name;
    forall i, j | 0 <= i < j < |r|
      ensures Less(r[i], r[j])
    {
      var x, y := if i < k then i else i - 1, if j < k then j else j - 1;
      assert i != k && j != k ==> Less(sorted[x], sorted[y]);
    }
  }

  /** All names before one that is less are less. */
  lemma BelongsAfter(sorted: seq<string>, name: string, k: nat)
    requires Ascending(sorted) && 0 < k <= |sorted| && Less(sorted[k - 1], name)
    ensures forall j :: 0 <= j < k ==> Less(sorted[j], name)
  {
    forall j | 0 <= j < k - 1
      ensures Less(sorted[j], name)
    {
      LessIsTransitive(sorted[j], sorted[k - 1], name);
    }
  }

  /** Puts a name into an ascending list it is not in. */
  method Insert(sorted: seq<string>, name: string) returns (r: seq<string>)
    requires Ascending(sorted) && name !in sorted
    ensures Lists(r, Members(sorted) + {name})
  {
    var k := |sorted|;
    while k > 0 && Less(name, sorted[k - 1])
      invariant 0 <= k <= |sorted|
      invariant forall j :: k <= j < |sorted| ==> Less(name, sorted[j])
    {
      k := k - 1;
    }
    if k > 0 {
      LessIsTotal(name, sorted[k - 1]);
      BelongsAfter(sorted, name, k);
    }
    InsertedAt(sorted, name, k);
    return sorted[..k] + [name] + sorted[k..];
  }

  /** CacheKey: the names come out of the map in any order; sorting makes the key canonical. */
  method CacheKey(fields: FieldSet) returns (key: string)
    ensures IsKey(fields, key)
  {
    if fields.All? {
      return ALL_KEY;
    }
    if fields.names == {} {
      return NONE_KEY;
    }
    var rest, names: seq<string> := fields.names, [];
    while rest != {}
      invariant rest <= fields.names && Lists(names, fields.names - rest)
      decreases |rest|
    {
      var name :| name in rest;
      assert name !in Members(names);
      names := Insert(names, name);
      rest := rest - {name};
    }
    return Join(names);
  }

  // ----- The key determines the set

  /** A name that the key can carry unambiguously. */
  predicate Plain(name: string) {
    COMMA !in name && name != ALL_KEY && name != NONE_KEY
  }

  ghost predicate PlainFields(fields: FieldSet) {
    fields.Names? ==> forall n :: n in fields.names ==> Plain(n)
  }

  ghost predicate NoCommas(names: seq<string>) {
    forall n :: n in names ==> COMMA !in n
  }

  lemma FirstComma(a: string, x: string)
    requires COMMA !in a
    ensures (a + [COMMA] + x)[|a|] == COMMA && forall i :: 0 <= i < |a| ==> (a + [COMMA] + x)[i] != COMMA
  {
  }

  /** A comma-free first part ends at the first comma. */
  lemma FirstPart(a: string, x: string, b: string, y: string)
    requires COMMA !in a && COMMA !in b
    requires a + [COMMA] + x == b + [COMMA] + y
    ensures a == b && x == y
  {
    var s := a + [COMMA] + x;
    FirstComma(a, x);
    FirstComma(b, y);
    assert |a| == |b|;
    assert a == s[..|a|] && b == s[..|b|];
    assert x == s[|a| + 1..] && y == s[|b| + 1..];
  }

  lemma CommaSeparates(a: seq<string>)
    requires NoCommas(a) && a != []
    ensures COMMA in Join(a) <==> |a| > 1
  {
    assert a[0] in a;
  }

  /** Splitting at the commas gives the names back. */
  lemma {:induction false} JoinIsInjective(a: seq<string>, b: seq<string>)
    requires NoCommas(a) && NoCommas(b) && a != [] && b != [] && Join(a) == Join(b)
    ensures a == b
  {
    assert a[0] in a && b[0] in b;
    CommaSeparates(a);
    CommaSeparates(b);
    if |a| > 1 {
      FirstPart(a[0], Join(a[1..]), b[0], Join(b[1..]));
      JoinIsInjective(a[1..], b[1..]);
      assert a == [a[0]] + a[1..] && b == [b[0]] + b[1..];
    }
  }

  lemma KeyOfNames(names: set<string>, key: string) returns (listing: seq<string>)
    requires PlainFields(Names(names)) && names != {} && IsKey(Names(names), key)
    ensures Lists(listing, names) && key == Join(listing) && NoCommas(listing) && listing != []
    ensures key != ALL_KEY && key != NONE_KEY
  {
    listing :| Lists(listing, names) && key == Join(listing);
    assert forall n :: n in listing ==> n in Members(listing);
    assert listing == [] ==> Members(listing) == {};
    assert listing[0] in listing;
    CommaSeparates(listing);
    assert COMMA !in ALL_KEY && COMMA !in NONE_KEY;
  }

  /** Canonical: a field set has one key only. */
  lemma KeyIsCanonical(fields: FieldSet, k1: string, k2: string)
    requires IsKey(fields, k1) && IsKey(fields, k2)
    ensures k1 == k2
  {
    if fields.Names? && fields.names != {} {
      var l1 :| Lists(l1, fields.names) && k1 == Join(l1);
      var l2 :| Lists(l2, fields.names) && k2 == Join(l2);
      AscendingIsUnique(l1, l2);
    }
  }

  /** Injective: equal keys mean equal field sets. */
  lemma EqualKeysEqualFields(a: FieldSet, b: FieldSet, key: string)
    requires PlainFields(a) && PlainFields(b) && IsKey(a, key) && IsKey(b, key)
    ensures a == b
  {
    if a.Names? && a.names != {} {
      var la := KeyOfNames(a.names, key);
      if b.Names? && b.names != {} {
        var lb := KeyOfNames(b.names, key);
        JoinIsInjective(la, lb);
      }
    } else if b.Names? && b.names != {} {
      var lb := KeyOfNames(b.names, key);
    }
  }

  /** A string longer than every name of a finite set. */
  lemma {:induction false} LongerThanAll(names: set<string>) returns (s: string)
    ensures forall n :: n in names ==> |n| < |s|
    decreases |names|
  {
    if names == {} {
      s := "";
    } else {
      var x :| x in names;
      var t := LongerThanAll(names - {x});
      s := t + x + "+";
    }
  }

  lemma WantsOne(fields: FieldSet, name: string)
    ensures Wants(fields, [name]) <==> fields.All? || name in fields.names
  {
    assert [name][0] == name;
  }

  lemma SameWantsSameFields(a: FieldSet, b: FieldSet)
    ensures SameWants(a, b) <==> a == b
  {
    if a != b {
      var s;
      if a.All? != b.All? {
        s := LongerThanAll(if a.All? then b.names else a.names);
      } else {
        s :| (s in a.names) != (s in b.names);
      }
      WantsOne(a, s);
      WantsOne(b, s);
      assert Wants(a, [s]) != Wants(b, [s]);
    }
  }

  /** Two field sets of plain names have the same key exactly when they want the same. */
  lemma KeysAgreeIffWantsAgree(a: FieldSet, b: FieldSet, ka: string, kb: string)
    requires PlainFields(a) && PlainFields(b) && IsKey(a, ka) && IsKey(b, kb)
    ensures ka == kb <==> SameWants(a, b)
  {
    SameWantsSameFields(a, b);
    if a == b {
      KeyIsCanonical(a, ka, kb);
    } else if ka == kb {
      EqualKeysEqualFields(a, b, ka);
    }
  }

  // ----- GraphQL names are plain

  predicate NameStart(ch: char) {
    'a' <= ch <= 'z' || 'A' <= ch <= 'Z' || ch == '_'
  }

  /** A GraphQL name: a letter or underscore, then letters, digits and underscores. */
  predicate IsGraphQLName(name: string) {
    name != "" && NameStart(name[0]) && forall i :: 0 <= i < |name| ==> NameStart(name[i]) || '0' <= name[i] <= '9'
  }

  lemma GraphQLNamesArePlain(name: string)
    requires IsGraphQLName(name)
    ensures Plain(name)
  {
    assert ALL_KEY[0] == '*' && NONE_KEY[0] == '-';
  }

  /** Without the restriction keys collide: a field called * and a pair of names next to one with a comma. */
  lemma OddNamesCollide()
    ensures IsKey(All, "*") && IsKey(Names({"*"}), "*")
    ensures IsKey(Names({"a", "b"}), "a,b") && IsKey(Names({"a,b"}), "a,b")
  {
    assert Lists(["*"], {"*"}) && Join(["*"]) == "*";
    assert Lists(["a,b"], {"a,b"}) && Join(["a,b"]) == "a,b";
    assert "a"[0] < "b"[0] && Lists(["a", "b"], {"a", "b"});
    assert Join(["a", "b"][1..]) == "b" && Join(["a", "b"]) == "a,b";
  }
}
