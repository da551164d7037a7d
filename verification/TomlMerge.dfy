/** The recursive overlay of one TOML value on another. */
module TomlMerge {
  import opened Text

  /** Floats and datetimes are opaque tokens: merging only passes them on. */
  datatype Value =
    | String(text: string)
    | Integer(n: int)
    | Float(bits: int)
    | Boolean(b: bool)
    | Datetime(token: string)
    | Array(items: seq<Value>)
    | Table(entries: map<string, Value>)

  datatype MergeError = MergeError(path: string, expected: string, existing: string)

  function TypeName(v: Value): string {
    match v
    case String(_) => "string"
    case Integer(_) => "integer"
    case Float(_) => "float"
    case Boolean(_) => "boolean"
    case Datetime(_) => "datetime"
    case Array(_) => "array"
    case Table(_) => "table"
  }

  predicate SameType(a: Value, b: Value) {
    || (a.String? && b.String?) || (a.Integer? && b.Integer?) || (a.Float? && b.Float?)
    || (a.Boolean? && b.Boolean?) || (a.Datetime? && b.Datetime?) || (a.Array? && b.Array?)
    || (a.Table? && b.Table?)
  }

  // ---- What merging means

  /** Tables may differ in their keys, but not in the types below a shared key. */
  predicate Compatible(a: Value, b: Value) {
    SameType(a, b) &&
    (a.Table? ==> forall k | k in a.entries && k in b.entries :: Compatible(a.entries[k], b.entries[k]))
  }

  function Overlay(replaceArrays: bool, a: Value, b: Value): Value {
    if a.Table? && b.Table? then
      Table(map k | k in a.entries.Keys + b.entries.Keys ::
              if k !in b.entries then a.entries[k]
              else if k !in a.entries then b.entries[k]
              else Overlay(replaceArrays, a.entries[k], b.entries[k]))
    else if a.Array? && b.Array? && !replaceArrays then Array(a.items + b.items)
    else b
  }

  /** The value at a key path. */
  function At(v: Value, path: seq<string>): Option<Value> {
    if path == [] then Some(v)
    else if v.Table? && path[0] in v.entries then At(v.entries[path[0]], path[1..])
    else None
  }

  function Dotted(path: seq<string>): string {
    if path == [] then "" else "." + path[0] + Dotted(path[1..])
  }

  /** Both sides hold something at the key path, of different types. */
  predicate Differ(a: Value, b: Value, keys: seq<string>) {
    At(a, keys).Some? && At(b, keys).Some? && !SameType(At(a, keys).value, At(b, keys).value)
  }

  /** The error names a shared key path whose types differ, and those types. */
  ghost predicate IsConflict(a: Value, b: Value, prefix: string, keys: seq<string>, error: MergeError) {
    && Differ(a, b, keys)
    && error == MergeError(prefix + Dotted(keys), TypeName(At(a, keys).value), TypeName(At(b, keys).value))
  }

  // ---- The order of keys

  /** The order in which a table, and the tables below it, list their keys. */
  datatype Listing = Listing(names: seq<string>, below: map<string, Listing>)

  ghost predicate Lists(names: seq<string>, keys: set<string>) {
    && (forall k :: k in names <==> k in keys)
    && (forall i, j | 0 <= i < j < |names| :: names[i] != names[j])
  }

  ghost predicate IsListingOf(listing: Listing, v: Value)
    decreases v
  {
    v.Table? ==>
      && Lists(listing.names, v.entries.Keys)
      && forall k | k in v.entries :: k in listing.below && IsListingOf(listing.below[k], v.entries[k])
  }

  ghost predicate IsListedBefore(names: seq<string>, a: string, b: string) {
    exists i, j | 0 <= i < j < |names| :: names[i] == a && names[j] == b
  }

  /** The first key path comes up before the second when tables are visited as listed. */
  ghost predicate Precedes(listing: Listing, p: seq<string>, q: seq<string>)
    decreases p
  {
    && p != [] && q != []
    && if p[0] == q[0] then p[0] in listing.below && Precedes(listing.below[p[0]], p[1..], q[1..])
       else IsListedBefore(listing.names, p[0], q[0])
  }

  ghost predicate IsFirst(listing: Listing, a: Value, b: Value, keys: seq<string>) {
    forall q :: Differ(a, b, q) && q != keys ==> Precedes(listing, keys, q)
  }

  /** The error is the conflict that comes up first. */
  ghost predicate IsFirstConflict(listing: Listing, a: Value, b: Value, prefix: string, error: MergeError) {
    exists keys :: IsConflict(a, b, prefix, keys, error) && IsFirst(listing, a, b, keys)
  }

  // ---- The merger

  /** `listing` is how the overlay happens to list its keys. */
  method MergeInner(listing: Listing, replaceArrays: bool, value: Value, other: Value, path: string)
    returns (r: Result<Value, MergeError>)
    requires IsListingOf(listing, other)
    ensures r.Ok? <==> Compatible(value, other)
    ensures r.Ok? ==> r.value == Overlay(replaceArrays, value, other)
    ensures r.Err? ==> IsFirstConflict(listing, value, other, path, r.error)
    decreases other, 1
  {
    match (value, other)
    case (Table(existing), Table(inner)) =>
      var merged := MergeIntoTable(listing, replaceArrays, existing, inner, path);
      match merged {
        case Err(error) => r := Err(error);
        case Ok(entries) => r := Ok(Table(entries));
      }
    case (Array(existing), Array(inner)) =>
      r := Ok(Array(if replaceArrays then inner else existing + inner));
    case _ =>
      if SameType(value, other) {
        r := Ok(other);
      } else {
        r := Err(MergeError(path, TypeName(value), TypeName(other)));
        TopConflict(listing, value, other, path);
      }
  }

  lemma TopConflict(listing: Listing, a: Value, b: Value, path: string)
    requires !SameType(a, b)
    ensures IsFirstConflict(listing, a, b, path, MergeError(path, TypeName(a), TypeName(b)))
  {
    AppendEmpty(path);
    assert IsConflict(a, b, path, [], MergeError(path, TypeName(a), TypeName(b)));
    assert IsFirst(listing, a, b, []);
  }

  /** The entry point: error paths begin at `$`. */
  method Merge(listing: Listing, replaceArrays: bool, value: Value, other: Value)
    returns (r: Result<Value, MergeError>)
    requires IsListingOf(listing, other)
    ensures r.Ok? <==> Compatible(value, other)
    ensures r.Ok? ==> r.value == Overlay(replaceArrays, value, other)
    ensures r.Err? ==> IsFirstConflict(listing, value, other, "$", r.error)
  {
    r := MergeInner(listing, replaceArrays, value, other, "$");
  }

  /** What an error says: the keys joined by dots after the prefix, and the names of the two types, base first. */
  lemma ConflictSays(a: Value, b: Value, prefix: string, keys: seq<string>, error: MergeError)
    requires IsConflict(a, b, prefix, keys, error)
    ensures error.path == if keys == [] then prefix else prefix + "." + Join(keys, '.')
    ensures Says(error.expected, At(a, keys).value) && Says(error.existing, At(b, keys).value)
  {
    DottedIsJoin(keys);
    AppendEmpty(prefix);
    AppendAssociates(prefix, ".", Join(keys, '.'));
    TypeNameSays(At(a, keys).value);
    TypeNameSays(At(b, keys).value);
  }

  lemma TypeNameSays(v: Value)
    ensures Says(TypeName(v), v)
  {
  }

  predicate Says(name: string, v: Value) {
    && (v.String? <==> name == "string") && (v.Integer? <==> name == "integer") && (v.Float? <==> name == "float")
    && (v.Boolean? <==> name == "boolean") && (v.Datetime? <==> name == "datetime")
    && (v.Array? <==> name == "array") && (v.Table? <==> name == "table")
  }

  lemma {:induction false} DottedIsJoin(keys: seq<string>)
    ensures Dotted(keys) == if keys == [] then "" else "." + Join(keys, '.')
  {
    if |keys| > 1 {
      DottedIsJoin(keys[1..]);
      AppendAssociates("." + keys[0], ".", Join(keys[1..], '.'));
      AppendAssociates(".", keys[0], "." + Join(keys[1..], '.'));
      AppendAssociates(keys[0], ".", Join(keys[1..], '.'));
    } else if |keys| == 1 {
      AppendEmpty("." + keys[0]);
    }
  }

  /** Entries move one by one, as listed, from the overlay into the table. */
  method MergeIntoTable(listing: Listing, replaceArrays: bool, value: map<string, Value>, other: map<string, Value>,
                        path: string)
    returns (r: Result<map<string, Value>, MergeError>)
    requires IsListingOf(listing, Table(other))
    ensures r.Ok? <==> Compatible(Table(value), Table(other))
    ensures r.Ok? ==> Table(r.value) == Overlay(replaceArrays, Table(value), Table(other))
    ensures r.Err? ==> IsFirstConflict(listing, Table(value), Table(other), path, r.error)
    decreases Table(other), 0
  {
    var entries, names := value, listing.names;
    ghost var remaining := other.Keys;
    for i := 0 to |names|
      invariant remaining <= other.Keys && Lists(names[i..], remaining)
      invariant Progress(replaceArrays, value, other, remaining, entries)
    {
      var name := names[i];
      NextListed(names, i, remaining);
      if name in entries {
        var existing := entries[name];
        assert existing == value[name];
        var inner := MergeInner(listing.below[name], replaceArrays, existing, other[name], path + "." + name);
        if inner.Err? {
          EarlierAreCompatible(names, i, value, other, remaining);
          ConflictingEntry(listing, value, other, path, i, inner.error);
          return Err(inner.error);
        }
        ProgressStep(replaceArrays, value, other, remaining, entries, name);
        entries := (entries - {name})[name := inner.value];
      } else {
        ProgressStep(replaceArrays, value, other, remaining, entries, name);
        entries := entries[name := other[name]];
      }
      remaining := remaining - {name};
    }
    assert remaining == {};
    ProgressDone(replaceArrays, value, other, entries);
    return Ok(entries);
  }

  lemma NextListed(names: seq<string>, i: nat, remaining: set<string>)
    requires i < |names| && Lists(names[i..], remaining)
    ensures names[i] in remaining && Lists(names[i + 1..], remaining - {names[i]})
  {
    var now, next := names[i..], names[i + 1..];
    assert now[0] == names[i] && now == [names[i]] + next;
    forall k
      ensures k in next <==> k in remaining - {names[i]}
    {
      assert k in now <==> k == names[i] || k in next;
      if k in next {
        var j :| 0 <= j < |next| && next[j] == k;
        assert now[j + 1] == k;
      }
    }
    forall j, k | 0 <= j < k < |next|
      ensures next[j] != next[k]
    {
      assert next[j] == now[j + 1] && next[k] == now[k + 1];
    }
  }

  /** The entries listed before position `i` gave no conflict. */
  ghost predicate CompatibleBefore(names: seq<string>, i: nat, a: map<string, Value>, b: map<string, Value>)
    requires i <= |names|
  {
    forall k | 0 <= k < i && names[k] in a && names[k] in b :: Compatible(a[names[k]], b[names[k]])
  }

  lemma EarlierAreCompatible(names: seq<string>, i: nat, a: map<string, Value>, b: map<string, Value>,
                             remaining: set<string>)
    requires i < |names| && Lists(names, b.Keys) && Lists(names[i..], remaining)
    requires forall k | k in b && k !in remaining && k in a :: Compatible(a[k], b[k])
    ensures CompatibleBefore(names, i, a, b)
  {
    forall k | 0 <= k < i && names[k] in a && names[k] in b
      ensures Compatible(a[names[k]], b[names[k]])
    {
      assert forall j | 0 <= j < |names[i..]| :: names[i..][j] == names[i + j];
      assert names[k] !in names[i..];
    }
  }

  /** The keys that are not `remaining` have been merged. */
  ghost predicate Progress(replaceArrays: bool, value: map<string, Value>, other: map<string, Value>,
                           remaining: set<string>, entries: map<string, Value>)
  {
    && entries.Keys == value.Keys + (other.Keys - remaining)
    && (forall k | k in entries ::
          entries[k] == if k in remaining then value[k] else EntryAt(replaceArrays, value, other, k))
    && (forall k | k in other && k !in remaining && k in value :: Compatible(value[k], other[k]))
  }

  lemma ProgressStep(replaceArrays: bool, value: map<string, Value>, other: map<string, Value>,
                     remaining: set<string>, entries: map<string, Value>, name: string)
    requires name in remaining && remaining <= other.Keys
    requires Progress(replaceArrays, value, other, remaining, entries)
    requires name in value ==> Compatible(value[name], other[name])
    ensures var entry := EntryAt(replaceArrays, value, other, name);
            && Progress(replaceArrays, value, other, remaining - {name}, entries[name := entry])
            && Progress(replaceArrays, value, other, remaining - {name}, (entries - {name})[name := entry])
  {
    var entry := EntryAt(replaceArrays, value, other, name);
    assert (entries - {name})[name := entry] == entries[name := entry];
    var after := entries[name := entry];
    assert after.Keys == value.Keys + (other.Keys - (remaining - {name}));
  }

  lemma ProgressDone(replaceArrays: bool, value: map<string, Value>, other: map<string, Value>,
                     entries: map<string, Value>)
    requires Progress(replaceArrays, value, other, {}, entries)
    ensures Compatible(Table(value), Table(other))
    ensures Table(entries) == Overlay(replaceArrays, Table(value), Table(other))
  {
    OverlayByEntries(replaceArrays, value, other, entries);
  }

  /** What one key of a merged table holds. */
  function EntryAt(replaceArrays: bool, a: map<string, Value>, b: map<string, Value>, k: string): Value
    requires k in a || k in b
  {
    if k !in b then a[k] else if k !in a then b[k] else Overlay(replaceArrays, a[k], b[k])
  }

  lemma OverlayByEntries(replaceArrays: bool, a: map<string, Value>, b: map<string, Value>, merged: map<string, Value>)
    requires merged.Keys == a.Keys + b.Keys
    requires forall k | k in merged :: merged[k] == EntryAt(replaceArrays, a, b, k)
    ensures Table(merged) == Overlay(replaceArrays, Table(a), Table(b))
  {
    assert merged == Overlay(replaceArrays, Table(a), Table(b)).entries;
  }

  /** The first conflict below the first entry that has one is the first conflict of the table. */
  lemma ConflictingEntry(listing: Listing, a: map<string, Value>, b: map<string, Value>, path: string, i: nat,
                         error: MergeError)
    requires IsListingOf(listing, Table(b)) && i < |listing.names| && CompatibleBefore(listing.names, i, a, b)
    requires var name := listing.names[i];
             && name in a && name in b && name in listing.below
             && IsFirstConflict(listing.below[name], a[name], b[name], path + "." + name, error)
    ensures IsFirstConflict(listing, Table(a), Table(b), path, error)
  {
    var name := listing.names[i];
    var keys :| IsConflict(a[name], b[name], path + "." + name, keys, error) &&
                IsFirst(listing.below[name], a[name], b[name], keys);
    ConflictBelow(a, b, path, name, keys, error);
    forall q | Differ(Table(a), Table(b), q) && q != [name] + keys
      ensures Precedes(listing, [name] + keys, q)
    {
      FirstPrecedes(listing, a, b, i, keys, q);
    }
  }

  lemma FirstPrecedes(listing: Listing, a: map<string, Value>, b: map<string, Value>, i: nat, keys: seq<string>,
                      q: seq<string>)
    requires IsListingOf(listing, Table(b)) && i < |listing.names| && CompatibleBefore(listing.names, i, a, b)
    requires var name := listing.names[i];
             && name in a && name in b && name in listing.below
             && IsFirst(listing.below[name], a[name], b[name], keys)
    requires Differ(Table(a), Table(b), q) && q != [listing.names[i]] + keys
    ensures Precedes(listing, [listing.names[i]] + keys, q)
  {
    var name := listing.names[i];
    assert q != [];
    assert Differ(a[q[0]], b[q[0]], q[1..]);
    assert ([name] + keys)[1..] == keys;
    if q[0] == name {
      assert q == [name] + q[1..];
    } else {
      assert q[0] in listing.names;
      var j :| 0 <= j < |listing.names| && listing.names[j] == q[0];
      if j < i {
        CompatibleAlong(a[q[0]], b[q[0]], q[1..]);
        assert false;
      }
      assert IsListedBefore(listing.names, name, q[0]);
    }
  }

  lemma ConflictBelow(a: map<string, Value>, b: map<string, Value>, path: string, name: string,
                      keys: seq<string>, error: MergeError)
    requires name in a && name in b && IsConflict(a[name], b[name], path + "." + name, keys, error)
    ensures IsConflict(Table(a), Table(b), path, [name] + keys, error)
  {
    assert ([name] + keys)[1..] == keys;
    assert path + "." + name + Dotted(keys) == path + ("." + name + Dotted(keys));
  }

  // ---- Success and value, key path by key path

  /** Merging succeeds exactly when no shared key path holds different types. */
  lemma CompatibleIffTypesAgree(a: Value, b: Value)
    ensures Compatible(a, b) <==>
            forall path :: At(a, path).Some? && At(b, path).Some? ==> SameType(At(a, path).value, At(b, path).value)
  {
    if Compatible(a, b) {
      forall path | At(a, path).Some? && At(b, path).Some?
        ensures SameType(At(a, path).value, At(b, path).value)
      {
        CompatibleAlong(a, b, path);
      }
    } else {
      var path := DifferingPath(a, b);
    }
  }

  lemma {:induction false} CompatibleAlong(a: Value, b: Value, path: seq<string>)
    requires Compatible(a, b) && At(a, path).Some? && At(b, path).Some?
    ensures Compatible(At(a, path).value, At(b, path).value)
    decreases path
  {
    if path != [] {
      CompatibleAlong(a.entries[path[0]], b.entries[path[0]], path[1..]);
    }
  }

  lemma {:induction false} DifferingPath(a: Value, b: Value) returns (path: seq<string>)
    requires !Compatible(a, b)
    ensures At(a, path).Some? && At(b, path).Some? && !SameType(At(a, path).value, At(b, path).value)
    decreases a
  {
    if SameType(a, b) {
      var k :| k in a.entries && k in b.entries && !Compatible(a.entries[k], b.entries[k]);
      var rest := DifferingPath(a.entries[k], b.entries[k]);
      path := [k] + rest;
      assert path[1..] == rest;
    } else {
      path := [];
    }
  }

  /** At every key path the result holds the overlay of what the two sides hold there. */
  lemma {:induction false} OverlayIsPointwise(replaceArrays: bool, a: Value, b: Value, path: seq<string>)
    requires Compatible(a, b)
    ensures At(Overlay(replaceArrays, a, b), path) ==
            match (At(a, path), At(b, path))
            case (None, y) => y
            case (x, None) => x
            case (Some(x), Some(y)) => Some(Overlay(replaceArrays, x, y))
    decreases path
  {
    if path != [] && a.Table? {
      var k := path[0];
      if k in a.entries && k in b.entries {
        OverlayIsPointwise(replaceArrays, a.entries[k], b.entries[k], path[1..]);
      }
    }
  }

  /**
   * The override wins: where it holds anything but a table, so does the result, save that appended
   * arrays keep the base's items in front.
   */
  lemma {:induction false} OverrideWins(replaceArrays: bool, a: Value, b: Value, path: seq<string>)
    requires Compatible(a, b) && At(b, path).Some? && !At(b, path).value.Table?
    ensures At(Overlay(replaceArrays, a, b), path) ==
            if !replaceArrays && At(b, path).value.Array? && At(a, path).Some? && At(a, path).value.Array?
            then Some(Array(At(a, path).value.items + At(b, path).value.items))
            else At(b, path)
    decreases path
  {
    if path != [] {
      var k := path[0];
      if k in a.entries {
        OverrideWins(replaceArrays, a.entries[k], b.entries[k], path[1..]);
      }
    }
  }

  /** What only the base holds stays. */
  lemma {:induction false} BaseStays(replaceArrays: bool, a: Value, b: Value, path: seq<string>)
    requires Compatible(a, b) && At(b, path).None?
    ensures At(Overlay(replaceArrays, a, b), path) == At(a, path)
    decreases path
  {
    OverlayIsPointwise(replaceArrays, a, b, path);
  }

  // ---- Three values

  /** An overlay is compatible with what both its sides are compatible with. */
  lemma {:induction false} CompatibleWithOverlay(r: bool, a: Value, b: Value, c: Value)
    requires Compatible(a, b)
    ensures Compatible(Overlay(r, a, b), c) <==> Compatible(a, c) && Compatible(b, c)
    ensures Compatible(c, Overlay(r, a, b)) <==> Compatible(c, a) && Compatible(c, b)
    decreases a
  {
    if a.Table? && c.Table? {
      var ab := Overlay(r, a, b);
      forall k | k in ab.entries && k in c.entries
        ensures Compatible(ab.entries[k], c.entries[k]) <==>
                (k in a.entries ==> Compatible(a.entries[k], c.entries[k])) &&
                (k in b.entries ==> Compatible(b.entries[k], c.entries[k]))
        ensures Compatible(c.entries[k], ab.entries[k]) <==>
                (k in a.entries ==> Compatible(c.entries[k], a.entries[k])) &&
                (k in b.entries ==> Compatible(c.entries[k], b.entries[k]))
      {
        if k in a.entries && k in b.entries {
          CompatibleWithOverlay(r, a.entries[k], b.entries[k], c.entries[k]);
        }
      }
      assert forall k | k in a.entries || k in b.entries :: k in ab.entries;
    }
  }

  lemma {:induction false} OverlayAssociates(r: bool, a: Value, b: Value, c: Value)
    requires Compatible(a, b) && Compatible(b, c) && Compatible(a, c)
    ensures Overlay(r, Overlay(r, a, b), c) == Overlay(r, a, Overlay(r, b, c))
    decreases a
  {
    if a.Table? {
      var left, right := Overlay(r, Overlay(r, a, b), c), Overlay(r, a, Overlay(r, b, c));
      assert left.entries.Keys == right.entries.Keys;
      forall k | k in left.entries
        ensures left.entries[k] == right.entries[k]
      {
        if k in a.entries && k in b.entries && k in c.entries {
          OverlayAssociates(r, a.entries[k], b.entries[k], c.entries[k]);
        }
      }
      assert left.entries == right.entries;
    } else if a.Array? {
      if !r {
        AppendAssociates(a.items, b.items, c.items);
      }
    }
  }

  /** Merging three values: both groupings succeed together and give the same value. */
  lemma MergeAssociates(r: bool, a: Value, b: Value, c: Value)
    ensures (Compatible(a, b) && Compatible(Overlay(r, a, b), c)) <==>
            (Compatible(b, c) && Compatible(a, Overlay(r, b, c)))
    ensures Compatible(a, b) && Compatible(Overlay(r, a, b), c) ==>
              Overlay(r, Overlay(r, a, b), c) == Overlay(r, a, Overlay(r, b, c))
  {
    if Compatible(a, b) {
      CompatibleWithOverlay(r, a, b, c);
    }
    if Compatible(b, c) {
      CompatibleWithOverlay(r, b, c, a);
    }
    if Compatible(a, b) && Compatible(b, c) && Compatible(a, c) {
      OverlayAssociates(r, a, b, c);
    }
  }

  // ---- Merging the same overlay again

  lemma {:induction false} CompatibleWithItself(a: Value)
    ensures Compatible(a, a)
  {
    if a.Table? {
      forall k | k in a.entries
        ensures Compatible(a.entries[k], a.entries[k])
      {
        CompatibleWithItself(a.entries[k]);
      }
    }
  }

  /** No array that merging would append holds anything. */
  predicate AppendsNothing(v: Value) {
    (v.Array? ==> v.items == []) &&
    (v.Table? ==> forall k | k in v.entries :: AppendsNothing(v.entries[k]))
  }

  lemma {:induction false} OverlayOnItself(r: bool, b: Value)
    requires r || AppendsNothing(b)
    ensures Overlay(r, b, b) == b
  {
    if b.Table? {
      forall k | k in b.entries
        ensures EntryAt(r, b.entries, b.entries, k) == b.entries[k]
      {
        OverlayOnItself(r, b.entries[k]);
      }
      OverlayByEntries(r, b.entries, b.entries, b.entries);
    }
  }

  lemma {:induction false} AppendingPath(b: Value) returns (path: seq<string>)
    requires !AppendsNothing(b)
    ensures At(b, path).Some? && At(b, path).value.Array? && At(b, path).value.items != []
  {
    if b.Table? {
      var k :| k in b.entries && !AppendsNothing(b.entries[k]);
      var rest := AppendingPath(b.entries[k]);
      path := [k] + rest;
      assert path[1..] == rest;
    } else {
      path := [];
    }
  }

  /** Where the overlay has an array, merging it again appends it again. */
  lemma AppendedTwice(a: Value, b: Value, path: seq<string>)
    requires Compatible(a, b) && Compatible(Overlay(false, a, b), b)
    requires At(b, path).Some? && At(b, path).value.Array? && At(b, path).value.items != []
    ensures Overlay(false, Overlay(false, a, b), b) != Overlay(false, a, b)
  {
    var once := Overlay(false, a, b);
    var items := At(b, path).value.items;
    OverlayIsPointwise(false, a, b, path);
    OverlayIsPointwise(false, once, b, path);
    if At(a, path).Some? {
      CompatibleAlong(a, b, path);
    }
    var x := At(once, path).value;
    assert x.Array?;
    assert At(Overlay(false, once, b), path) == Some(Array(x.items + items));
    assert |x.items + items| > |x.items|;
  }

  /**
   * Applying an overlay twice is applying it once exactly when arrays are replaced, or the overlay
   * appends nothing.
   */
  lemma OverlayTwiceIff(r: bool, a: Value, b: Value)
    requires Compatible(a, b)
    ensures Compatible(Overlay(r, a, b), b)
    ensures Overlay(r, Overlay(r, a, b), b) == Overlay(r, a, b) <==> r || AppendsNothing(b)
  {
    CompatibleWithItself(b);
    CompatibleWithOverlay(r, a, b, b);
    if r || AppendsNothing(b) {
      OverlayAssociates(r, a, b, b);
      OverlayOnItself(r, b);
    } else {
      var path := AppendingPath(b);
      AppendedTwice(a, b, path);
    }
  }
}
