/** The classes of simpleacl.py: an entry wrapper that changes permissions
    idempotently and marks its ACL modified, an ACL wrapper with
    find-or-create accessors, filtering and mask reconciliation, and the
    access and default ACLs of a path with their validate-then-commit
    `apply`.

    The provider (posix1e) is represented by its state only: its ACL is the
    `entries` list of a SimpleAcl, its entries are RawEntry objects, the
    stored ACLs of paths are a Filesystem, and the computations it owns
    (the automatic mask, the validity check) are parameters. */
module Simpleacl {
  import opened Wrappers
  import opened PermBits
  import opened AclEntries

  /** An entry of the provider's ACL (posix1e.Entry), changed in place. */
  class RawEntry {
    var tag: Tag
    var qualifier: Option<int>
    var permset: set<Perm>

    /** A new entry of a tag: the provider gives it no qualifier and no
        permissions. */
    constructor (tag: Tag)
      ensures this.tag == tag && qualifier == None && permset == {}
    {
      this.tag := tag;
      qualifier := None;
      permset := {};
    }

    function State(): AclEntry
      reads this
    {
      AclEntry(tag, qualifier, permset)
    }
  }

  /** The states of a list of provider entries. */
  function ViewOf(es: seq<RawEntry>): seq<AclEntry>
    reads es
  {
    seq(|es|, k requires 0 <= k < |es| reads es => es[k].State())
  }

  /** The element at a position; the trigger that `Distinct` waits for. */
  function At<T>(s: seq<T>, i: int): T
    requires 0 <= i < |s|
  {
    s[i]
  }

  /** No object occurs twice. Its quantifier only fires on `At` terms, so a
      proof that needs it says so by calling `DistinctAt`. */
  ghost predicate Distinct<T>(s: seq<T>)
  {
    forall i, j {:trigger At(s, i), At(s, j)} :: 0 <= i < j < |s| ==> At(s, i) != At(s, j)
  }

  /** Two positions of a list without repetitions hold different objects. */
  lemma DistinctAt<T>(s: seq<T>, i: int, j: int)
    requires Distinct(s) && 0 <= i < |s| && 0 <= j < |s| && i != j
    ensures s[i] != s[j]
  {
    if i < j {
      assert At(s, i) != At(s, j);
    } else {
      assert At(s, j) != At(s, i);
    }
  }

  /** The object at one position of a list without repetitions occurs at no
      other position. */
  lemma DistinctOthers<T>(s: seq<T>, i: int)
    requires Distinct(s) && 0 <= i < |s|
    ensures forall k :: 0 <= k < |s| && k != i ==> s[k] != s[i]
  {
    forall k | 0 <= k < |s| && k != i
      ensures s[k] != s[i]
    {
      DistinctAt(s, k, i);
    }
  }

  /** Appending an object the list lacks keeps it without repetitions. */
  lemma DistinctAppend<T>(s: seq<T>, x: T)
    requires Distinct(s) && x !in s
    ensures Distinct(s + [x])
  {
    var t := s + [x];
    forall i, j | 0 <= i < j < |t|
      ensures At(t, i) != At(t, j)
    {
      if j < |s| {
        DistinctAt(s, i, j);
      }
    }
  }

  /** Removing the object at position `i` keeps the list without
      repetitions, and that object no longer occurs in it. */
  lemma DistinctRemove<T>(s: seq<T>, i: int)
    requires Distinct(s) && 0 <= i < |s|
    ensures Distinct(s[..i] + s[i + 1..]) && s[i] !in s[..i] + s[i + 1..]
  {
    var t := s[..i] + s[i + 1..];
    assert forall k :: 0 <= k < |t| ==> t[k] == s[if k < i then k else k + 1];
    forall a, b | 0 <= a < b < |t|
      ensures At(t, a) != At(t, b)
    {
      DistinctAt(s, if a < i then a else a + 1, if b < i then b else b + 1);
    }
    DistinctOthers(s, i);
  }

  /** A prefix of a list without repetitions has none. */
  lemma DistinctPrefix<T>(s: seq<T>, n: int)
    requires Distinct(s) && 0 <= n <= |s|
    ensures Distinct(s[..n])
  {
    forall a, b | 0 <= a < b < n
      ensures At(s[..n], a) != At(s[..n], b)
    {
      DistinctAt(s, a, b);
    }
  }

  /** Where the provider finds an entry it is asked to delete. */
  function IndexOf<T(==)>(s: seq<T>, x: T): (i: nat)
    requires x in s
    ensures i < |s| && s[i] == x && x !in s[..i]
  {
    if s[0] == x then 0 else 1 + IndexOf(s[1..], x)
  }

  /** In a list without repetitions, the provider finds each entry at its
      own position. */
  lemma IndexOfDistinct<T>(s: seq<T>, k: nat)
    requires Distinct(s) && k < |s|
    ensures IndexOf(s, s[k]) == k
  {
    var i := IndexOf(s, s[k]);
    if i != k {
      DistinctAt(s, i, k);
    }
  }

  /** The provider finds an object at its first occurrence. */
  lemma {:induction false} IndexOfFirst<T>(kept: seq<T>, x: T, rest: seq<T>)
    requires x !in kept
    ensures IndexOf(kept + [x] + rest, x) == |kept|
  {
    if kept != [] {
      assert (kept + [x] + rest)[1..] == kept[1..] + [x] + rest;
      IndexOfFirst(kept[1..], x, rest);
    }
  }

  /** The states of a list are fixed by the states of its entries. */
  lemma ViewOfPointwise(es: seq<RawEntry>, s: seq<AclEntry>)
    requires |es| == |s|
    requires forall k :: 0 <= k < |es| ==> es[k].State() == s[k]
    ensures ViewOf(es) == s
  {
  }

  /** The list `kept + rest` split at the first element of `rest`. */
  lemma SplitAtHead<T>(kept: seq<T>, rest: seq<T>)
    requires rest != []
    ensures (kept + rest)[|kept|] == rest[0]
    ensures (kept + rest)[..|kept|] == kept && (kept + rest)[|kept| + 1..] == rest[1..]
    ensures kept + rest == (kept + [rest[0]]) + rest[1..]
  {
    assert (kept + rest)[..|kept|] == kept;
    assert (kept + rest)[|kept| + 1..] == rest[1..];
    assert kept + rest == (kept + [rest[0]]) + rest[1..];
  }

  /** The states of a list with one more entry. */
  lemma ViewOfAppend(es: seq<RawEntry>, e: RawEntry)
    ensures ViewOf(es + [e]) == ViewOf(es) + [e.State()]
  {
  }

  /** The entry objects `_filter_entries` keeps, given the states `vals`
      they had when the loop started. */
  function Kept(objs: seq<RawEntry>, vals: seq<AclEntry>, tag: Tag, quals: seq<int>): (r: seq<RawEntry>)
    requires |objs| == |vals|
    ensures forall x :: x in r ==> x in objs
  {
    if objs == [] then []
    else
      var n := |objs| - 1;
      var init := Kept(objs[..n], vals[..n], tag, quals);
      if Disallowed(vals[n], tag, quals) then init else init + [objs[n]]
  }

  /** One more step of `_filter_entries`'s loop over the entry objects. */
  lemma KeptStep(objs: seq<RawEntry>, vals: seq<AclEntry>, i: nat, tag: Tag, quals: seq<int>)
    requires |objs| == |vals| && i < |objs|
    ensures Kept(objs[..i + 1], vals[..i + 1], tag, quals)
         == if Disallowed(vals[i], tag, quals) then Kept(objs[..i], vals[..i], tag, quals)
            else Kept(objs[..i], vals[..i], tag, quals) + [objs[i]]
  {
    assert objs[..i + 1][..i] == objs[..i];
    assert vals[..i + 1][..i] == vals[..i];
  }

  /** Keeping some of a list of distinct objects gives distinct objects. */
  lemma {:induction false} KeptDistinct(objs: seq<RawEntry>, vals: seq<AclEntry>, tag: Tag, quals: seq<int>)
    requires |objs| == |vals| && Distinct(objs)
    ensures Distinct(Kept(objs, vals, tag, quals))
  {
    if objs != [] {
      var n := |objs| - 1;
      DistinctPrefix(objs, n);
      KeptDistinct(objs[..n], vals[..n], tag, quals);
      KeptExcludesNext(objs, vals, n, tag, quals);
      if !Disallowed(vals[n], tag, quals) {
        DistinctAppend(Kept(objs[..n], vals[..n], tag, quals), objs[n]);
      }
    }
  }

  /** The object the loop visits next is not among those it has kept. */
  lemma KeptExcludesNext(objs: seq<RawEntry>, vals: seq<AclEntry>, i: nat, tag: Tag, quals: seq<int>)
    requires |objs| == |vals| && Distinct(objs) && i < |objs|
    ensures objs[i] !in Kept(objs[..i], vals[..i], tag, quals)
  {
    DistinctOthers(objs, i);
    assert forall j :: 0 <= j < i ==> objs[..i][j] != objs[i];
  }

  /** The kept objects show exactly the kept states. */
  lemma {:induction false} ViewOfKept(objs: seq<RawEntry>, vals: seq<AclEntry>, tag: Tag, quals: seq<int>)
    requires |objs| == |vals|
    requires forall k :: 0 <= k < |objs| ==> objs[k].State() == vals[k]
    ensures ViewOf(Kept(objs, vals, tag, quals)) == Filtered(vals, tag, quals)
  {
    if objs != [] {
      var n := |objs| - 1;
      ViewOfKept(objs[..n], vals[..n], tag, quals);
      ViewOfAppend(Kept(objs[..n], vals[..n], tag, quals), objs[n]);
    }
  }

  /** SimpleAclEntry: a provider entry together with the ACL whose
      `modified` flag its permission changes set. */
  class SimpleAclEntry {
    const acl: SimpleAcl
    const entry: RawEntry

    constructor (acl: SimpleAcl, entry: RawEntry)
      ensures this.acl == acl && this.entry == entry
    {
      this.acl := acl;
      this.entry := entry;
    }

    /** `get_permbits`: the permission set as a mask. */
    method GetPermbits() returns (bits: int)
      ensures bits == Bits(entry.permset)
    {
      bits := PermsetBits(entry.permset);
    }

    /** `set_permbits`: make the permission set hold exactly the permissions
        whose bit is set in `bits`. */
    method SetPermbits(bits: int)
      modifies entry`permset, acl`modified
      ensures entry.permset == Elems(PermArray(bits))
      ensures Bits(entry.permset) == bits % 8
      ensures acl.modified == (old(acl.modified) || entry.permset != old(entry.permset))
    {
      var perms := BitsAsPermarray(bits);
      SetPerms(perms);
      BitsOfPermArray(bits);
    }

    /** `fix_perms`: add each required permission that is missing, then
        delete each forbidden one that is present, marking the ACL modified
        on every add and every delete. */
    method FixPerms(required: seq<Perm>, forbidden: seq<Perm>)
      modifies entry`permset, acl`modified
      ensures entry.permset == FixedPerms(old(entry.permset), required, forbidden)
      ensures acl.modified == (old(acl.modified) || FixChanges(old(entry.permset), required, forbidden))
    {
      ghost var before := entry.permset;
      for i := 0 to |required|
        invariant entry.permset == before + Elems(required[..i])
        invariant acl.modified == (old(acl.modified) || exists p :: p in required[..i] && p !in before)
      {
        var perm := required[i];
        assert required[..i + 1] == required[..i] + [perm];
        if perm !in entry.permset {
          entry.permset := entry.permset + {perm};
          acl.modified := true;
        }
      }
      assert required[..|required|] == required;
      ghost var added := entry.permset;
      for j := 0 to |forbidden|
        invariant entry.permset == added - Elems(forbidden[..j])
        invariant acl.modified == (old(acl.modified) || (exists p :: p in required && p !in before)
                                   || exists p :: p in forbidden[..j] && p in added)
      {
        var perm := forbidden[j];
        assert forbidden[..j + 1] == forbidden[..j] + [perm];
        if perm in entry.permset {
          entry.permset := entry.permset - {perm};
          acl.modified := true;
        }
      }
      assert forbidden[..|forbidden|] == forbidden;
    }

    /** `set_perms`: for Read, Write and Execute in turn, add it when listed
        and missing, delete it when present and not listed, marking the ACL
        modified on each change. */
    method SetPerms(perms: seq<Perm>)
      modifies entry`permset, acl`modified
      ensures entry.permset == Elems(perms)
      ensures acl.modified == (old(acl.modified) || entry.permset != old(entry.permset))
    {
      for i := 0 to |Order|
        invariant forall p :: p in entry.permset <==> if Rank(p) < i then p in perms else p in old(entry.permset)
        invariant acl.modified == (old(acl.modified) || entry.permset != old(entry.permset))
      {
        var perm := Order[i];
        assert Rank(perm) == i;
        if perm in perms {
          if perm !in entry.permset {
            entry.permset := entry.permset + {perm};
            acl.modified := true;
          }
        } else {
          if perm in entry.permset {
            entry.permset := entry.permset - {perm};
            acl.modified := true;
          }
        }
      }
    }

    /** `delete`: the provider removes the entry from its ACL, and the ACL
        is marked modified. The entry must still belong to the ACL. */
    method Delete()
      requires entry in acl.entries
      modifies acl`entries, acl`modified
      ensures var i := IndexOf(old(acl.entries), entry);
        acl.entries == old(acl.entries[..i] + acl.entries[i + 1..])
      ensures old(acl.Valid()) ==> acl.Valid() && entry !in acl.entries
      ensures acl.modified
    {
      var i := IndexOf(acl.entries, entry);
      if acl.Valid() {
        DistinctRemove(acl.entries, i);
      }
      acl.entries := acl.entries[..i] + acl.entries[i + 1..];
      acl.modified := true;
    }

    /** The `tag_type` property, read. */
    method GetTagType() returns (t: Tag)
      ensures t == entry.tag
    {
      t := entry.tag;
    }

    /** The `tag_type` property, written: `modified` is left alone. */
    method SetTagType(t: Tag)
      modifies entry`tag
      ensures entry.tag == t && acl.modified == old(acl.modified)
    {
      entry.tag := t;
    }

    /** The `qualifier` property, read. */
    method GetQualifier() returns (q: Option<int>)
      ensures q == entry.qualifier
    {
      q := entry.qualifier;
    }

    /** The `qualifier` property, written: `modified` is left alone. */
    method SetQualifier(q: int)
      modifies entry`qualifier
      ensures entry.qualifier == Some(q) && acl.modified == old(acl.modified)
    {
      entry.qualifier := Some(q);
    }

    /** The `permset` property, read. */
    method GetPermset() returns (ps: set<Perm>)
      ensures ps == entry.permset
    {
      ps := entry.permset;
    }

    /** The `permset` property, written: `modified` is left alone. */
    method SetPermset(ps: set<Perm>)
      modifies entry`permset
      ensures entry.permset == ps && acl.modified == old(acl.modified)
    {
      entry.permset := ps;
    }
  }

  /** SimpleAcl: the provider's ACL (its live list of entries) and the flag
      that says whether it differs from the ACL on disk. */
  class SimpleAcl {
    var entries: seq<RawEntry>
    var modified: bool

    /** The provider's ACL holds each entry object once. */
    ghost predicate Valid()
      reads this`entries
    {
      Distinct(entries)
    }

    /** The states of the entries, in order. */
    function View(): seq<AclEntry>
      reads this`entries, entries
    {
      ViewOf(entries)
    }

    /** Wrap a provider ACL; it starts unmodified. */
    constructor (acl: seq<RawEntry>)
      requires Distinct(acl)
      ensures entries == acl && !modified && Valid()
    {
      entries := acl;
      modified := false;
    }

    /** `is_modified`. */
    method IsModified() returns (m: bool)
      ensures m == modified
    {
      m := modified;
    }

    /** `entries`: one wrapper per provider entry, in order. */
    method Entries() returns (wrapped: seq<SimpleAclEntry>)
      ensures |wrapped| == |entries|
      ensures forall k :: 0 <= k < |wrapped| ==> wrapped[k].acl == this && wrapped[k].entry == entries[k]
    {
      wrapped := [];
      for i := 0 to |entries|
        invariant |wrapped| == i
        invariant forall k :: 0 <= k < i ==> wrapped[k].acl == this && wrapped[k].entry == entries[k]
      {
        var w := new SimpleAclEntry(this, entries[i]);
        wrapped := wrapped + [w];
      }
    }

    /** `_create_entry`: the provider appends a new entry of the tag, and
        the ACL is marked modified. */
    method CreateEntry(tag: Tag) returns (e: SimpleAclEntry)
      requires Valid()
      modifies this
      ensures Valid() && e.acl == this && fresh(e.entry)
      ensures entries == old(entries) + [e.entry] && e.entry.State() == AclEntry(tag, None, {})
      ensures View() == old(View()) + [AclEntry(tag, None, {})]
      ensures modified
    {
      var entry := new RawEntry(tag);
      DistinctAppend(entries, entry);
      entries := entries + [entry];
      modified := true;
      e := new SimpleAclEntry(this, entry);
    }

    /** `_get_entry`: the first entry with this tag and qualifier, or null. */
    method GetEntry(tag: Tag, qual: int) returns (r: SimpleAclEntry?)
      ensures r == null <==> FirstMatch(View(), tag, qual).None?
      ensures r != null ==> r.acl == this && r.entry == entries[FirstMatch(View(), tag, qual).value]
    {
      for i := 0 to |entries|
        invariant forall k :: 0 <= k < i ==> !Matches(View()[k], tag, qual)
      {
        var entry := entries[i];
        if entry.tag == tag && entry.qualifier == Some(qual) {
          assert Matches(View()[i], tag, qual);
          r := new SimpleAclEntry(this, entry);
          return;
        }
      }
      r := null;
    }

    /** `has_group`: whether some entry is the named group `gid`. */
    method HasGroup(gid: int) returns (b: bool)
      ensures b <==> exists k :: 0 <= k < |entries| && Matches(View()[k], Group, gid)
    {
      var e := GetEntry(Group, gid);
      b := e != null;
    }

    /** `get_group`: the first entry of the named group `gid`; without one,
        a new entry for it is appended and the ACL is marked modified. */
    method GetGroup(gid: int) returns (e: SimpleAclEntry)
      requires Valid()
      modifies this
      ensures Valid() && e.acl == this
      ensures FirstMatch(old(View()), Group, gid).Some? ==>
        entries == old(entries) && modified == old(modified)
        && e.entry == entries[FirstMatch(old(View()), Group, gid).value]
      ensures FirstMatch(old(View()), Group, gid).None? ==>
        fresh(e.entry) && entries == old(entries) + [e.entry] && modified
        && View() == old(View()) + [AclEntry(Group, Some(gid), {})]
      ensures FirstMatch(View(), Group, gid).Some?
      ensures e.entry == entries[FirstMatch(View(), Group, gid).value]
    {
      var found := GetEntry(Group, gid);
      if found == null {
        ghost var s := View();
        e := CreateEntry(Group);
        assert forall k :: 0 <= k < |s| ==> entries[k].State() == s[k];
        e.SetQualifier(gid);
        ViewOfPointwise(entries, s + [AclEntry(Group, Some(gid), {})]);
        FirstMatchAppend(s, AclEntry(Group, Some(gid), {}), Group, gid);
      } else {
        e := found;
      }
    }

    /** `get_user`: the first entry of the named user `uid`; without one,
        a new entry for it is appended and the ACL is marked modified. */
    method GetUser(uid: int) returns (e: SimpleAclEntry)
      requires Valid()
      modifies this
      ensures Valid() && e.acl == this
      ensures FirstMatch(old(View()), User, uid).Some? ==>
        entries == old(entries) && modified == old(modified)
        && e.entry == entries[FirstMatch(old(View()), User, uid).value]
      ensures FirstMatch(old(View()), User, uid).None? ==>
        fresh(e.entry) && entries == old(entries) + [e.entry] && modified
        && View() == old(View()) + [AclEntry(User, Some(uid), {})]
      ensures FirstMatch(View(), User, uid).Some?
      ensures e.entry == entries[FirstMatch(View(), User, uid).value]
    {
      var found := GetEntry(User, uid);
      if found == null {
        ghost var s := View();
        e := CreateEntry(User);
        assert forall k :: 0 <= k < |s| ==> entries[k].State() == s[k];
        e.SetQualifier(uid);
        ViewOfPointwise(entries, s + [AclEntry(User, Some(uid), {})]);
        FirstMatchAppend(s, AclEntry(User, Some(uid), {}), User, uid);
      } else {
        e := found;
      }
    }

    /** `_get_entry_obj`: the first entry of the tag, or null. */
    method GetEntryObj(tag: Tag) returns (r: SimpleAclEntry?)
      ensures r == null <==> FirstOfTag(View(), tag).None?
      ensures r != null ==> r.acl == this && r.entry == entries[FirstOfTag(View(), tag).value]
    {
      for i := 0 to |entries|
        invariant forall k :: 0 <= k < i ==> View()[k].tag != tag
      {
        var entry := entries[i];
        if entry.tag == tag {
          assert View()[i].tag == tag;
          r := new SimpleAclEntry(this, entry);
          return;
        }
      }
      r := null;
    }

    /** `get_user_obj`: the first USER_OBJ entry, created when missing. */
    method GetUserObj() returns (e: SimpleAclEntry)
      requires Valid()
      modifies this
      ensures Valid() && e.acl == this
      ensures FirstOfTag(View(), UserObj).Some? && e.entry == entries[FirstOfTag(View(), UserObj).value]
      ensures FirstOfTag(old(View()), UserObj).Some? ==>
        entries == old(entries) && modified == old(modified)
        && e.entry == entries[FirstOfTag(old(View()), UserObj).value]
      ensures FirstOfTag(old(View()), UserObj).None? ==>
        fresh(e.entry) && entries == old(entries) + [e.entry] && modified
        && View() == old(View()) + [AclEntry(UserObj, None, {})]
    {
      var found := GetEntryObj(UserObj);
      if found == null {
        ghost var s := View();
        e := CreateEntry(UserObj);
        FirstOfTagAppend(s, AclEntry(UserObj, None, {}), UserObj);
      } else {
        e := found;
      }
    }

    /** `get_group_obj`: the first GROUP_OBJ entry, created when missing. */
    method GetGroupObj() returns (e: SimpleAclEntry)
      requires Valid()
      modifies this
      ensures Valid() && e.acl == this
      ensures FirstOfTag(View(), GroupObj).Some? && e.entry == entries[FirstOfTag(View(), GroupObj).value]
      ensures FirstOfTag(old(View()), GroupObj).Some? ==>
        entries == old(entries) && modified == old(modified)
        && e.entry == entries[FirstOfTag(old(View()), GroupObj).value]
      ensures FirstOfTag(old(View()), GroupObj).None? ==>
        fresh(e.entry) && entries == old(entries) + [e.entry] && modified
        && View() == old(View()) + [AclEntry(GroupObj, None, {})]
    {
      var found := GetEntryObj(GroupObj);
      if found == null {
        ghost var s := View();
        e := CreateEntry(GroupObj);
        FirstOfTagAppend(s, AclEntry(GroupObj, None, {}), GroupObj);
      } else {
        e := found;
      }
    }

    /** `get_other`: the first OTHER entry, created when missing. */
    method GetOther() returns (e: SimpleAclEntry)
      requires Valid()
      modifies this
      ensures Valid() && e.acl == this
      ensures FirstOfTag(View(), Other).Some? && e.entry == entries[FirstOfTag(View(), Other).value]
      ensures FirstOfTag(old(View()), Other).Some? ==>
        entries == old(entries) && modified == old(modified)
        && e.entry == entries[FirstOfTag(old(View()), Other).value]
      ensures FirstOfTag(old(View()), Other).None? ==>
        fresh(e.entry) && entries == old(entries) + [e.entry] && modified
        && View() == old(View()) + [AclEntry(Other, None, {})]
    {
      var found := GetEntryObj(Other);
      if found == null {
        ghost var s := View();
        e := CreateEntry(Other);
        FirstOfTagAppend(s, AclEntry(Other, None, {}), Other);
      } else {
        e := found;
      }
    }

    /** `get_mask`: the first MASK entry, created when missing. */
    method GetMask() returns (e: SimpleAclEntry)
      requires Valid()
      modifies this
      ensures Valid() && e.acl == this
      ensures View() == WithMask(old(View()))
      ensures e.entry == entries[FirstOfTag(View(), Mask).value]
      ensures FirstOfTag(old(View()), Mask).Some? ==>
        entries == old(entries) && modified == old(modified)
      ensures FirstOfTag(old(View()), Mask).None? ==>
        fresh(e.entry) && entries == old(entries) + [e.entry] && modified
    {
      var found := GetEntryObj(Mask);
      if found == null {
        ghost var s := View();
        e := CreateEntry(Mask);
        FirstOfTagAppend(s, AclEntry(Mask, None, {}), Mask);
      } else {
        e := found;
      }
    }

    /** `_filter_entries`: delete every entry of the tag whose qualifier is
        not in `quals`, visiting a snapshot of the entries in order. */
    method FilterEntries(tag: Tag, quals: seq<int>)
      requires Valid()
      modifies this
      ensures Valid()
      ensures View() == Filtered(old(View()), tag, quals)
      ensures forall e :: e in entries ==> e in old(entries)
      ensures modified == (old(modified) || AnyDisallowed(old(View()), tag, quals))
    {
      var snapshot := entries;
      ghost var s := View();
      ghost var kept: seq<RawEntry> := [];
      for i := 0 to |snapshot|
        invariant FilterProgress(snapshot, s, i, kept, old(modified), tag, quals)
      {
        assert snapshot[i].State() == s[i] by {
          assert snapshot[i].State() == old(snapshot[i].State()) == old(View())[i];
        }
        kept := FilterStep(snapshot, s, i, kept, old(modified), tag, quals);
      }
      assert forall k :: 0 <= k < |snapshot| ==> snapshot[k].State() == s[k] by {
        assert forall k :: 0 <= k < |snapshot| ==> snapshot[k].State() == old(snapshot[k].State()) == s[k];
      }
      FilteredOutcome(snapshot, s, kept, old(modified), tag, quals);
    }

    /** Where `_filter_entries`'s loop stands after visiting the first `i`
        objects of `snapshot`, whose states were `s`: the entries are the
        objects kept so far followed by the unvisited ones, and `modified`
        records whether one was deleted. */
    ghost predicate FilterProgress(snapshot: seq<RawEntry>, s: seq<AclEntry>, i: nat, kept: seq<RawEntry>,
                                   wasModified: bool, tag: Tag, quals: seq<int>)
      reads this`entries, this`modified
    {
      && i <= |snapshot| == |s|
      && entries == kept + snapshot[i..]
      && kept == Kept(snapshot[..i], s[..i], tag, quals)
      && |kept| <= i
      && modified == (wasModified || |kept| < i)
    }

    /** What is left once `_filter_entries`'s loop has visited every entry
        of the snapshot. */
    lemma FilteredOutcome(snapshot: seq<RawEntry>, s: seq<AclEntry>, kept: seq<RawEntry>,
                          wasModified: bool, tag: Tag, quals: seq<int>)
      requires FilterProgress(snapshot, s, |snapshot|, kept, wasModified, tag, quals) && Distinct(snapshot)
      requires forall k :: 0 <= k < |snapshot| ==> snapshot[k].State() == s[k]
      ensures Valid() && View() == Filtered(s, tag, quals)
      ensures forall e :: e in entries ==> e in snapshot
      ensures modified == (wasModified || AnyDisallowed(s, tag, quals))
    {
      assert snapshot[..|snapshot|] == snapshot && s[..|snapshot|] == s;
      assert entries == kept + [] == Kept(snapshot, s, tag, quals);
      ViewOfKept(snapshot, s, tag, quals);
      KeptDistinct(snapshot, s, tag, quals);
      FilteredShorter(s, tag, quals);
    }

    /** One iteration of `_filter_entries`'s loop, stated in terms of the
        objects kept so far. */
    method FilterStep(snapshot: seq<RawEntry>, ghost s: seq<AclEntry>, i: nat, ghost kept: seq<RawEntry>,
                      ghost wasModified: bool, tag: Tag, quals: seq<int>) returns (ghost next: seq<RawEntry>)
      requires FilterProgress(snapshot, s, i, kept, wasModified, tag, quals)
      requires i < |snapshot| && Distinct(snapshot) && snapshot[i].State() == s[i]
      modifies this
      ensures FilterProgress(snapshot, s, i + 1, next, wasModified, tag, quals)
    {
      KeptStep(snapshot, s, i, tag, quals);
      KeptExcludesNext(snapshot, s, i, tag, quals);
      FilterVisit(snapshot, i, kept, tag, quals);
      next := if Disallowed(s[i], tag, quals) then kept else kept + [snapshot[i]];
    }

    /** One iteration of `_filter_entries`'s loop over `snapshot`: delete
        entry `i` when it is of the tag and its qualifier is not listed. */
    method FilterVisit(snapshot: seq<RawEntry>, i: nat, ghost kept: seq<RawEntry>, tag: Tag, quals: seq<int>)
      requires i < |snapshot| && entries == kept + snapshot[i..] && snapshot[i] !in kept
      modifies this
      ensures Disallowed(snapshot[i].State(), tag, quals) ==>
        entries == kept + snapshot[i + 1..] && modified
      ensures !Disallowed(snapshot[i].State(), tag, quals) ==>
        entries == (kept + [snapshot[i]]) + snapshot[i + 1..] && modified == old(modified)
    {
      var entry := snapshot[i];
      assert snapshot[i..][1..] == snapshot[i + 1..];
      SplitAtHead(kept, snapshot[i..]);
      if entry.tag == tag && !(entry.qualifier.Some? && entry.qualifier.value in quals) {
        var sentry := new SimpleAclEntry(this, entry);
        IndexOfFirst(kept, entry, snapshot[i + 1..]);
        sentry.Delete();
      }
    }

    /** `filter_groups`: keep only the named groups listed in `gids`. */
    method FilterGroups(gids: seq<int>)
      requires Valid()
      modifies this
      ensures Valid()
      ensures forall e :: e in entries ==> e in old(entries)
      ensures View() == Filtered(old(View()), Group, gids)
      ensures modified == (old(modified) || AnyDisallowed(old(View()), Group, gids))
    {
      FilterEntries(Group, gids);
    }

    /** `filter_users`: keep only the named users listed in `uids`. */
    method FilterUsers(uids: seq<int>)
      requires Valid()
      modifies this
      ensures Valid()
      ensures forall e :: e in entries ==> e in old(entries)
      ensures View() == Filtered(old(View()), User, uids)
      ensures modified == (old(modified) || AnyDisallowed(old(View()), User, uids))
    {
      FilterEntries(User, uids);
    }

    /** `recalc_to_mask`: when there is a mask entry, strip from every entry
        other than MASK, USER_OBJ and OTHER the permissions the mask lacks. */
    method RecalcToMask()
      requires Valid()
      modifies this`modified, entries
      ensures View() == Recalculated(old(View()))
      ensures modified == (old(modified) || View() != old(View()))
    {
      ghost var s := View();
      var mask := GetEntryObj(Mask);
      if mask == null {
        return;
      }
      assert mask.entry.State() == s[FirstOfTag(s, Mask).value];
      var maskBits := mask.GetPermbits();
      var forbidden := BitsAsPermarray(Complement(maskBits));
      var wrapped := Entries();
      RecalcStart(wrapped, s, forbidden);
      for i := 0 to |wrapped|
        invariant RecalcProgress(wrapped, s, forbidden, i, old(modified))
      {
        RecalcStep(wrapped, s, forbidden, i, old(modified));
      }
      PartlyMaskedDone(s);
    }

    /** Where `recalc_to_mask`'s loop stands after visiting the first `i`
        wrapped entries: those entries are reconciled with the mask, the
        rest are as they were in `s`, and `modified` records a change. */
    ghost predicate RecalcProgress(wrapped: seq<SimpleAclEntry>, s: seq<AclEntry>, forbidden: seq<Perm>,
                                   i: nat, wasModified: bool)
      reads this`entries, this`modified, entries, wrapped
    {
      && Valid() && i <= |wrapped| == |entries|
      && (forall k :: 0 <= k < |wrapped| ==> wrapped[k].acl == this && wrapped[k].entry == entries[k])
      && View() == PartlyMasked(s, forbidden, i)
      && modified == (wasModified || View() != s)
    }

    /** Before `recalc_to_mask`'s loop nothing is reconciled yet. */
    lemma RecalcStart(wrapped: seq<SimpleAclEntry>, s: seq<AclEntry>, forbidden: seq<Perm>)
      requires Valid() && View() == s && |wrapped| == |entries|
      requires forall k :: 0 <= k < |wrapped| ==> wrapped[k].acl == this && wrapped[k].entry == entries[k]
      ensures RecalcProgress(wrapped, s, forbidden, 0, modified)
    {
      assert PartlyMasked(s, forbidden, 0) == s;
    }

    /** One iteration of `recalc_to_mask`'s loop, stated as progress. */
    method RecalcStep(wrapped: seq<SimpleAclEntry>, ghost s: seq<AclEntry>, forbidden: seq<Perm>,
                      i: nat, ghost wasModified: bool)
      requires RecalcProgress(wrapped, s, forbidden, i, wasModified) && i < |wrapped|
      modifies this`modified, wrapped[i].entry`permset
      ensures RecalcProgress(wrapped, s, forbidden, i + 1, wasModified)
    {
      PartlyMaskedStep(s, forbidden, i);
      RecalcEntry(wrapped[i], i, forbidden);
    }

    /** One iteration of `recalc_to_mask`'s loop: entry `i` loses the
        forbidden permissions unless it is the mask, the owner or other. */
    method RecalcEntry(entry: SimpleAclEntry, i: nat, forbidden: seq<Perm>)
      requires Valid() && i < |entries|
      requires entry.acl == this && entry.entry == entries[i]
      modifies this`modified, entry.entry`permset
      ensures View() == old(View())[i := MaskedEntry(old(View())[i], forbidden)]
      ensures modified == (old(modified) || View() != old(View()))
    {
      ghost var v := View();
      assert forall k :: 0 <= k < |entries| ==> entries[k].State() == v[k];
      DistinctOthers(entries, i);
      var t := entry.GetTagType();
      if t == Mask || t == UserObj || t == Other {
        assert v[i := MaskedEntry(v[i], forbidden)] == v;
        return;
      }
      FixChangesExactly(entry.entry.permset, [], forbidden);
      entry.FixPerms([], forbidden);
      ViewOfPointwise(entries, v[i := entries[i].State()]);
    }

    /** `calc_mask`: let the provider recompute the mask entry (created
        first when missing) and report whether its bits changed; a change
        marks the ACL modified. `auto` is the provider's automatic mask of
        a list of entries. */
    method CalcMask(auto: seq<AclEntry> -> set<Perm>) returns (changed: bool)
      requires Valid()
      modifies this, entries
      ensures Valid()
      ensures var w := WithMask(old(View()));
        View() == AutoMasked(w, auto(w)) && (changed <==> MaskPerms(w) != auto(w))
      ensures modified == (old(modified) || FirstOfTag(old(View()), Mask).None? || changed)
      ensures FirstOfTag(old(View()), Mask).Some? ==> entries == old(entries)
      ensures FirstOfTag(old(View()), Mask).None? ==>
        |entries| == |old(entries)| + 1 && entries[..|old(entries)|] == old(entries)
        && fresh(entries[|old(entries)|])
    {
      var oldMask, newMask := RecomputeMask(auto);
      if oldMask != newMask {
        modified := true;
        return true;
      }
      return false;
    }

    /** The first half of `calc_mask`: read the mask bits (creating the mask
        entry when missing), let the provider recompute the mask, and read
        the bits again. */
    method RecomputeMask(auto: seq<AclEntry> -> set<Perm>) returns (oldMask: int, newMask: int)
      requires Valid()
      modifies this, entries
      ensures Valid()
      ensures var w := WithMask(old(View()));
        View() == AutoMasked(w, auto(w))
        && oldMask == Bits(MaskPerms(w)) && newMask == Bits(auto(w))
        && (oldMask == newMask <==> MaskPerms(w) == auto(w))
      ensures modified == (old(modified) || FirstOfTag(old(View()), Mask).None?)
      ensures FirstOfTag(old(View()), Mask).Some? ==> entries == old(entries)
      ensures FirstOfTag(old(View()), Mask).None? ==>
        |entries| == |old(entries)| + 1 && entries[..|old(entries)|] == old(entries)
        && fresh(entries[|old(entries)|])
    {
      ghost var s := View();
      var mask := GetMask();
      oldMask := mask.GetPermbits();
      ghost var w, m := View(), modified;
      assert m == (old(modified) || FirstOfTag(s, Mask).None?);
      assert oldMask == Bits(MaskPerms(w)) by {
        assert mask.entry.State() == w[FirstOfTag(w, Mask).value];
      }
      ProviderCalcMask(auto);
      newMask := MaskBits();
      BitsInjective(MaskPerms(w), auto(w));
    }

    /** `get_mask().get_permbits()` once the mask entry exists: the bits of
        the first mask entry, with nothing changed. */
    method MaskBits() returns (bits: int)
      requires Valid() && FirstOfTag(View(), Mask).Some?
      modifies this
      ensures entries == old(entries) && modified == old(modified)
      ensures bits == Bits(MaskPerms(View()))
    {
      var mask := GetMask();
      bits := mask.GetPermbits();
      assert mask.entry.State() == View()[FirstOfTag(View(), Mask).value];
    }

    /** The provider's `calc_mask`: it writes its automatic mask of the
        entries into the first mask entry. */
    method ProviderCalcMask(auto: seq<AclEntry> -> set<Perm>)
      requires Valid() && FirstOfTag(View(), Mask).Some?
      modifies entries
      ensures entries == old(entries) && modified == old(modified)
      ensures View() == AutoMasked(old(View()), auto(old(View())))
    {
      var i := FirstOfTag(View(), Mask).value;
      ghost var s := View();
      assert forall k :: 0 <= k < |entries| ==> entries[k].State() == s[k];
      DistinctOthers(entries, i);
      entries[i].permset := auto(View());
      ViewOfPointwise(entries, s[i := entries[i].State()]);
    }

    /** `valid`: the provider's verdict on the entries. */
    method IsValid(valid: seq<AclEntry> -> bool) returns (ok: bool)
      ensures ok == valid(View())
    {
      ok := valid(View());
    }
  }

  /** ACL_TYPE_ACCESS and ACL_TYPE_DEFAULT. */
  datatype AclType = Access | Default

  /** The ACLs the provider stores, by path and type, and the paths whose
      ACLs the provider refuses to write (a file the caller does not own,
      say). */
  class Filesystem {
    var acls: map<(string, AclType), seq<AclEntry>>
    const refused: set<string>

    constructor (acls: map<(string, AclType), seq<AclEntry>>, refused: set<string>)
      ensures this.acls == acls && this.refused == refused
    {
      this.acls := acls;
      this.refused := refused;
    }

    /** The provider's `applyto`: replace the stored ACL of that type at
        that path, as one operation, or fail with nothing stored. */
    method ApplyTo(path: string, aclType: AclType, entries: seq<AclEntry>) returns (ok: bool)
      modifies this
      ensures ok <==> path !in refused
      ensures ok ==> acls == old(acls)[(path, aclType) := entries]
      ensures !ok ==> acls == old(acls)
    {
      if path in refused {
        return false;
      }
      acls := acls[(path, aclType) := entries];
      return true;
    }
  }

  /** What `apply` raises: InvalidAclError with the path ACL (its path and
      its entries), or the provider's error when `applyto` fails. */
  datatype ApplyError =
    | InvalidAclError(message: string, path: string, acl: SimpleAcl)
    | CommitError(path: string, aclType: AclType)

  /** Validate-then-commit shared by both kinds of path ACL. */
  method ApplyAcl(acl: SimpleAcl, path: string, aclType: AclType, simulate: bool,
                  fs: Filesystem, valid: seq<AclEntry> -> bool)
    returns (r: Outcome<ApplyError>)
    modifies acl`modified, fs
    ensures r.Pass? <==> valid(acl.View()) && (simulate || path !in fs.refused)
    ensures r.Fail? ==> acl.modified == old(acl.modified) && fs.acls == old(fs.acls)
    ensures r.Fail? && r.error.InvalidAclError? <==> !valid(acl.View())
    ensures r.Fail? && r.error.InvalidAclError? ==> r.error.acl == acl && r.error.path == path
    ensures r.Fail? && r.error.CommitError? ==> r.error == CommitError(path, aclType)
    ensures r.Pass? ==> !acl.modified
    ensures r.Pass? && simulate ==> fs.acls == old(fs.acls)
    ensures r.Pass? && !simulate ==> fs.acls == old(fs.acls)[(path, aclType) := acl.View()]
  {
    var ok := acl.IsValid(valid);
    if !ok {
      return Fail(InvalidAclError("attempt to apply invalid acl", path, acl));
    }
    if !simulate {
      var committed := fs.ApplyTo(path, aclType, acl.View());
      if !committed {
        return Fail(CommitError(path, aclType));
      }
    }
    acl.modified := false;
    return Pass;
  }

  /** SimpleAccessAcl: the access ACL of a path. */
  class SimpleAccessAcl {
    const path: string
    const acl: SimpleAcl

    /** `loaded` is the access ACL the provider read from `filePath`. */
    constructor (filePath: string, loaded: seq<RawEntry>)
      requires Distinct(loaded)
      ensures path == filePath && fresh(acl)
      ensures acl.entries == loaded && !acl.modified && acl.Valid()
    {
      path := filePath;
      acl := new SimpleAcl(loaded);
    }

    /** `apply`: refuse an invalid ACL; otherwise store it as the path's
        access ACL unless simulating, and clear `modified` once it is
        stored or simulated. */
    method Apply(simulate: bool, fs: Filesystem, valid: seq<AclEntry> -> bool)
      returns (r: Outcome<ApplyError>)
      modifies acl`modified, fs
      ensures r.Pass? <==> valid(acl.View()) && (simulate || path !in fs.refused)
      ensures r.Fail? ==> acl.modified == old(acl.modified) && fs.acls == old(fs.acls)
      ensures r.Fail? && r.error.InvalidAclError? <==> !valid(acl.View())
      ensures r.Fail? && r.error.InvalidAclError? ==> r.error.acl == acl && r.error.path == path
      ensures r.Fail? && r.error.CommitError? ==> r.error == CommitError(path, Access)
      ensures r.Pass? ==> !acl.modified
      ensures r.Pass? && simulate ==> fs.acls == old(fs.acls)
      ensures r.Pass? && !simulate ==> fs.acls == old(fs.acls)[(path, Access) := acl.View()]
    {
      r := ApplyAcl(acl, path, Access, simulate, fs, valid);
    }
  }

  /** SimpleDefaultAcl: the default ACL of a directory. */
  class SimpleDefaultAcl {
    const path: string
    const acl: SimpleAcl

    /** `loaded` is the default ACL the provider read from `filePath`. */
    constructor (filePath: string, loaded: seq<RawEntry>)
      requires Distinct(loaded)
      ensures path == filePath && fresh(acl)
      ensures acl.entries == loaded && !acl.modified && acl.Valid()
    {
      path := filePath;
      acl := new SimpleAcl(loaded);
    }

    /** `apply`: refuse an invalid ACL; otherwise store it as the path's
        default ACL unless simulating, and clear `modified` once it is
        stored or simulated. */
    method Apply(simulate: bool, fs: Filesystem, valid: seq<AclEntry> -> bool)
      returns (r: Outcome<ApplyError>)
      modifies acl`modified, fs
      ensures r.Pass? <==> valid(acl.View()) && (simulate || path !in fs.refused)
      ensures r.Fail? ==> acl.modified == old(acl.modified) && fs.acls == old(fs.acls)
      ensures r.Fail? && r.error.InvalidAclError? <==> !valid(acl.View())
      ensures r.Fail? && r.error.InvalidAclError? ==> r.error.acl == acl && r.error.path == path
      ensures r.Fail? && r.error.CommitError? ==> r.error == CommitError(path, Default)
      ensures r.Pass? ==> !acl.modified
      ensures r.Pass? && simulate ==> fs.acls == old(fs.acls)
      ensures r.Pass? && !simulate ==> fs.acls == old(fs.acls)[(path, Default) := acl.View()]
    {
      r := ApplyAcl(acl, path, Default, simulate, fs, valid);
    }
  }
}
