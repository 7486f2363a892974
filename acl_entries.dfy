/** POSIX.1e ACL entries as values, and the functions that specify what the
    operations of simpleacl.py do to the list of entries of one ACL: lookup,
    filtering, reconciliation with the mask entry and `fix_perms` on one
    permission set. The classes in simple_acl.dfy are proved against them. */
module AclEntries {
  import opened Wrappers
  import opened PermBits

  /** The tag of an entry: posix1e's ACL_USER_OBJ, ACL_USER, ACL_GROUP_OBJ,
      ACL_GROUP, ACL_MASK and ACL_OTHER. */
  datatype Tag = UserObj | User | GroupObj | Group | Mask | Other

  /** The state of one entry: its tag, its qualifier (the uid or gid of a
      User or Group entry; None while the provider has none for it) and its
      permission set. */
  datatype AclEntry = AclEntry(tag: Tag, qualifier: Option<int>, perms: set<Perm>)

  /** The permission set `fix_perms` leaves: the required permissions are
      added first, then the forbidden ones are removed. */
  function FixedPerms(ps: set<Perm>, required: seq<Perm>, forbidden: seq<Perm>): (r: set<Perm>)
    ensures forall p :: p in forbidden ==> p !in r
    ensures forall p :: p in required && p !in forbidden ==> p in r
    ensures forall p :: p !in required && p !in forbidden ==> (p in r <==> p in ps)
  {
    (ps + Elems(required)) - Elems(forbidden)
  }

  /** Whether `fix_perms` adds or deletes at least one permission, and so sets
      `modified`: a required permission is missing, or a forbidden one is
      present once the required ones have been added. */
  predicate FixChanges(ps: set<Perm>, required: seq<Perm>, forbidden: seq<Perm>): (r: bool)
    ensures !r ==> FixedPerms(ps, required, forbidden) == ps
    ensures r ==> FixedPerms(ps, required, forbidden) != ps || exists p :: p in required && p in forbidden
  {
    (exists p :: p in required && p !in ps)
    || (exists p :: p in forbidden && (p in ps || p in required))
  }

  /** When the two lists do not overlap, `fix_perms` marks the ACL modified
      exactly when the permission set changes, and a second identical call
      changes nothing. */
  lemma FixChangesExactly(ps: set<Perm>, required: seq<Perm>, forbidden: seq<Perm>)
    requires forall p :: p in required ==> p !in forbidden
    ensures FixChanges(ps, required, forbidden) <==> FixedPerms(ps, required, forbidden) != ps
    ensures !FixChanges(FixedPerms(ps, required, forbidden), required, forbidden)
  {
    if FixChanges(ps, required, forbidden) {
      if p :| p in required && p !in ps {
        assert p in FixedPerms(ps, required, forbidden);
      } else {
        var p :| p in forbidden && (p in ps || p in required);
        assert p in ps && p !in FixedPerms(ps, required, forbidden);
      }
    }
  }

  /** With a permission both required and forbidden, `fix_perms` adds it and
      removes it again: `modified` is set whatever the set held, and the
      permission ends absent. */
  lemma FixOverlapMarksModified(ps: set<Perm>, required: seq<Perm>, forbidden: seq<Perm>, p: Perm)
    requires p in required && p in forbidden
    ensures FixChanges(ps, required, forbidden)
    ensures p !in FixedPerms(ps, required, forbidden)
  {
  }

  /** A witness that such a call can leave the set as it was while still
      setting `modified`. */
  lemma FixOverlapCanEndUnchanged()
    ensures FixedPerms({}, [Read], [Read]) == {}
    ensures FixChanges({}, [Read], [Read])
  {
    FixOverlapMarksModified({}, [Read], [Read], Read);
  }

  /** An entry `_get_entry(tag, qual)` accepts. */
  predicate Matches(e: AclEntry, tag: Tag, qual: int): (r: bool)
    ensures r <==> e == AclEntry(tag, Some(qual), e.perms)
    ensures r ==> !Disallowed(e, tag, [qual])
  {
    e.tag == tag && e.qualifier == Some(qual)
  }

  /** The index `_get_entry` stops at: the first entry with that tag and
      qualifier. */
  function FirstMatch(s: seq<AclEntry>, tag: Tag, qual: int): (r: Option<nat>)
    ensures r.Some? ==> r.value < |s| && Matches(s[r.value], tag, qual)
    ensures r.Some? ==> forall k :: 0 <= k < r.value ==> !Matches(s[k], tag, qual)
    ensures r.None? <==> forall k :: 0 <= k < |s| ==> !Matches(s[k], tag, qual)
  {
    if s == [] then None
    else if Matches(s[0], tag, qual) then Some(0)
    else match FirstMatch(s[1..], tag, qual)
      case None => None
      case Some(i) => Some(i + 1)
  }

  /** The index `_get_entry_obj` stops at: the first entry with that tag,
      whatever its qualifier. */
  function FirstOfTag(s: seq<AclEntry>, tag: Tag): (r: Option<nat>)
    ensures r.Some? ==> r.value < |s| && s[r.value].tag == tag
    ensures r.Some? ==> forall k :: 0 <= k < r.value ==> s[k].tag != tag
    ensures r.None? <==> forall k :: 0 <= k < |s| ==> s[k].tag != tag
  {
    if s == [] then None
    else if s[0].tag == tag then Some(0)
    else match FirstOfTag(s[1..], tag)
      case None => None
      case Some(i) => Some(i + 1)
  }

  /** Appending an entry keeps an existing first match; without one, a
      matching appended entry becomes the first match. */
  lemma {:induction false} FirstMatchAppend(s: seq<AclEntry>, e: AclEntry, tag: Tag, qual: int)
    ensures FirstMatch(s + [e], tag, qual)
         == if FirstMatch(s, tag, qual).Some? then FirstMatch(s, tag, qual)
            else if Matches(e, tag, qual) then Some(|s|) else None
  {
    if s != [] {
      assert (s + [e])[1..] == s[1..] + [e];
      FirstMatchAppend(s[1..], e, tag, qual);
    }
  }

  /** The same for the first entry of a tag. */
  lemma {:induction false} FirstOfTagAppend(s: seq<AclEntry>, e: AclEntry, tag: Tag)
    ensures FirstOfTag(s + [e], tag)
         == if FirstOfTag(s, tag).Some? then FirstOfTag(s, tag)
            else if e.tag == tag then Some(|s|) else None
  {
    if s != [] {
      assert (s + [e])[1..] == s[1..] + [e];
      FirstOfTagAppend(s[1..], e, tag);
    }
  }

  /** Two lists whose entries carry the same tags, position by position,
      have their first entry of each tag at the same place. */
  lemma {:induction false} FirstOfTagSameTags(s: seq<AclEntry>, t: seq<AclEntry>, tag: Tag)
    requires |s| == |t|
    requires forall k :: 0 <= k < |s| ==> s[k].tag == t[k].tag
    ensures FirstOfTag(s, tag) == FirstOfTag(t, tag)
  {
    if s != [] {
      FirstOfTagSameTags(s[1..], t[1..], tag);
    }
  }

  /** An entry `_filter_entries(tag, quals)` deletes: of that tag, with a
      qualifier outside `quals`. */
  predicate Disallowed(e: AclEntry, tag: Tag, quals: seq<int>): (r: bool)
    ensures r ==> e.tag == tag
    ensures e.tag == tag && e.qualifier.None? ==> r
    ensures forall q :: e.tag == tag && e.qualifier == Some(q) ==> (r <==> q !in quals)
  {
    e.tag == tag && !(e.qualifier.Some? && e.qualifier.value in quals)
  }

  /** Whether `_filter_entries(tag, quals)` has anything to delete. */
  predicate AnyDisallowed(s: seq<AclEntry>, tag: Tag, quals: seq<int>)
  {
    exists k :: 0 <= k < |s| && Disallowed(s[k], tag, quals)
  }

  /** The list `_filter_entries(tag, quals)` leaves: the entries it does not
      delete, in their order. */
  function Filtered(s: seq<AclEntry>, tag: Tag, quals: seq<int>): (r: seq<AclEntry>)
    ensures |r| <= |s|
    ensures forall e :: e in r ==> e in s && !Disallowed(e, tag, quals)
  {
    if s == [] then []
    else
      var init, last := Filtered(s[..|s| - 1], tag, quals), s[|s| - 1];
      if Disallowed(last, tag, quals) then init else init + [last]
  }

  /** The entries of one tag, in their order. */
  function OfTag(s: seq<AclEntry>, t: Tag): seq<AclEntry>
  {
    if s == [] then []
    else
      var init, last := OfTag(s[..|s| - 1], t), s[|s| - 1];
      if last.tag == t then init + [last] else init
  }

  /** Filtering deletes nothing else: every entry it does not target stays. */
  lemma {:induction false} FilteredKeepsAllowed(s: seq<AclEntry>, tag: Tag, quals: seq<int>)
    ensures forall e :: e in s && !Disallowed(e, tag, quals) ==> e in Filtered(s, tag, quals)
  {
    if s != [] {
      FilteredKeepsAllowed(s[..|s| - 1], tag, quals);
      assert s == s[..|s| - 1] + [s[|s| - 1]];
    }
  }

  /** The entries of every other tag are kept, all of them and in their
      prior relative order. */
  lemma {:induction false} FilteredOtherTags(s: seq<AclEntry>, tag: Tag, quals: seq<int>, t: Tag)
    requires t != tag
    ensures OfTag(Filtered(s, tag, quals), t) == OfTag(s, t)
  {
    if s != [] {
      var init, last := s[..|s| - 1], s[|s| - 1];
      FilteredOtherTags(init, tag, quals, t);
      if !Disallowed(last, tag, quals) {
        var f := Filtered(init, tag, quals);
        assert (f + [last])[..|f + [last]| - 1] == f;
      }
    }
  }

  /** The entries of the filtered tag that stay are the allowed ones among
      that tag's entries, in their prior relative order. */
  lemma {:induction false} FilteredOwnTag(s: seq<AclEntry>, tag: Tag, quals: seq<int>)
    ensures OfTag(Filtered(s, tag, quals), tag) == Filtered(OfTag(s, tag), tag, quals)
  {
    if s != [] {
      var init, last := s[..|s| - 1], s[|s| - 1];
      FilteredOwnTag(init, tag, quals);
      var f, o := Filtered(init, tag, quals), OfTag(init, tag);
      assert (f + [last])[..|f + [last]| - 1] == f;
      assert (o + [last])[..|o + [last]| - 1] == o;
    }
  }

  /** Filtering changes the list exactly when some entry is to be deleted;
      so a second identical filter changes nothing. */
  lemma {:induction false} FilteredUnchanged(s: seq<AclEntry>, tag: Tag, quals: seq<int>)
    ensures Filtered(s, tag, quals) == s <==> !AnyDisallowed(s, tag, quals)
  {
    if s != [] {
      var init, last := s[..|s| - 1], s[|s| - 1];
      FilteredUnchanged(init, tag, quals);
      assert s == init + [last];
      if AnyDisallowed(s, tag, quals) && !Disallowed(last, tag, quals) {
        var k :| 0 <= k < |s| && Disallowed(s[k], tag, quals);
        assert init[k] == s[k];
      }
      if !AnyDisallowed(s, tag, quals) {
        assert forall k :: 0 <= k < |init| ==> init[k] == s[k];
      }
    }
  }

  /** Filtering shortens the list exactly when some entry is to be deleted. */
  lemma {:induction false} FilteredShorter(s: seq<AclEntry>, tag: Tag, quals: seq<int>)
    ensures |Filtered(s, tag, quals)| < |s| <==> AnyDisallowed(s, tag, quals)
  {
    if s != [] {
      var init, last := s[..|s| - 1], s[|s| - 1];
      FilteredShorter(init, tag, quals);
      if AnyDisallowed(s, tag, quals) && !Disallowed(last, tag, quals) {
        var k :| 0 <= k < |s| && Disallowed(s[k], tag, quals);
        assert init[k] == s[k];
      }
      if AnyDisallowed(init, tag, quals) {
        var k :| 0 <= k < |init| && Disallowed(init[k], tag, quals);
        assert init[k] == s[k];
      }
    }
  }

  /** The tags `recalc_to_mask` leaves alone: MASK, USER_OBJ and OTHER.
      GROUP_OBJ is masked. */
  predicate Unmasked(t: Tag): (r: bool)
    ensures !r <==> t in {User, Group, GroupObj}
  {
    t == Mask || t == UserObj || t == Other
  }

  /** One entry after `fix_perms(forbidden_perms = forbidden)` unless its tag
      is left alone. */
  function MaskedEntry(e: AclEntry, forbidden: seq<Perm>): (r: AclEntry)
    ensures r.tag == e.tag && r.qualifier == e.qualifier && r.perms <= e.perms
    ensures Unmasked(e.tag) ==> r == e
    ensures !Unmasked(e.tag) ==> forall p :: p in forbidden ==> p !in r.perms
  {
    if Unmasked(e.tag) then e else e.(perms := FixedPerms(e.perms, [], forbidden))
  }

  /** The permissions `recalc_to_mask` forbids for a mask entry holding
      `mask`: the list of the bits of `~mask`. */
  function ForbiddenBy(mask: set<Perm>): (r: seq<Perm>)
    ensures Elems(r) == AllPerms - mask
    ensures InOrder(r)
  {
    ForbiddenByMask(mask);
    PermArray(Complement(Bits(mask)))
  }

  /** Every entry reconciled with the mask permissions `mask`. */
  function Masked(s: seq<AclEntry>, mask: set<Perm>): (r: seq<AclEntry>)
    ensures |r| == |s|
    ensures forall k :: 0 <= k < |s| ==>
      r[k].tag == s[k].tag && r[k].qualifier == s[k].qualifier && r[k].perms <= s[k].perms
  {
    seq(|s|, k requires 0 <= k < |s| => MaskedEntry(s[k], ForbiddenBy(mask)))
  }

  /** The first `n` entries reconciled, the rest as they were: the list
      part way through `recalc_to_mask`'s loop. */
  function PartlyMasked(s: seq<AclEntry>, forbidden: seq<Perm>, n: nat): (r: seq<AclEntry>)
    ensures |r| == |s|
    ensures n == 0 ==> r == s
    ensures forall k :: n <= k < |s| ==> r[k] == s[k]
    ensures forall k :: 0 <= k < |s| ==>
      r[k].tag == s[k].tag && r[k].qualifier == s[k].qualifier && r[k].perms <= s[k].perms
  {
    seq(|s|, k requires 0 <= k < |s| => if k < n then MaskedEntry(s[k], forbidden) else s[k])
  }

  /** One more iteration of `recalc_to_mask`'s loop reconciles entry `n`
      alone, and the list differs from the original afterwards exactly when
      it did before or entry `n` changed. */
  lemma PartlyMaskedStep(s: seq<AclEntry>, forbidden: seq<Perm>, n: nat)
    requires n < |s|
    ensures PartlyMasked(s, forbidden, n + 1) == PartlyMasked(s, forbidden, n)[n := MaskedEntry(s[n], forbidden)]
    ensures PartlyMasked(s, forbidden, n + 1) != s <==>
      PartlyMasked(s, forbidden, n) != s || MaskedEntry(s[n], forbidden) != s[n]
  {
    var a, b := PartlyMasked(s, forbidden, n), PartlyMasked(s, forbidden, n + 1);
    assert b == a[n := MaskedEntry(s[n], forbidden)];
    if a != s {
      var k :| 0 <= k < |s| && a[k] != s[k];
      assert b[k] != s[k];
    }
    if MaskedEntry(s[n], forbidden) != s[n] {
      assert b[n] != s[n];
    }
    if b != s {
      var k :| 0 <= k < |s| && b[k] != s[k];
      assert k == n || a[k] != s[k];
    }
  }

  /** The list `recalc_to_mask` leaves: unchanged without a mask entry,
      otherwise reconciled with the first mask entry's permissions. */
  function Recalculated(s: seq<AclEntry>): (r: seq<AclEntry>)
    ensures |r| == |s| && FirstOfTag(r, Mask) == FirstOfTag(s, Mask)
    ensures FirstOfTag(s, Mask).None? ==> r == s
    ensures forall k :: 0 <= k < |s| ==>
      r[k].tag == s[k].tag && r[k].qualifier == s[k].qualifier && r[k].perms <= s[k].perms
  {
    match FirstOfTag(s, Mask)
    case None => s
    case Some(i) =>
      var m := Masked(s, s[i].perms);
      FirstOfTagSameTags(s, m, Mask);
      m
  }

  /** Once the loop has passed every entry, the list is the reconciled one. */
  lemma PartlyMaskedDone(s: seq<AclEntry>)
    requires FirstOfTag(s, Mask).Some?
    ensures PartlyMasked(s, ForbiddenBy(MaskPerms(s)), |s|) == Recalculated(s)
  {
    var f := ForbiddenBy(MaskPerms(s));
    assert Recalculated(s) == Masked(s, MaskPerms(s));
    assert forall k :: 0 <= k < |s| ==> PartlyMasked(s, f, |s|)[k] == Masked(s, MaskPerms(s))[k];
  }

  /** Reconciling with a mask leaves each masked entry with the intersection
      of its permissions and the mask, and changes nothing else. */
  lemma MaskedIsIntersection(s: seq<AclEntry>, mask: set<Perm>)
    ensures |Masked(s, mask)| == |s|
    ensures forall k :: 0 <= k < |s| ==>
      Masked(s, mask)[k] == if Unmasked(s[k].tag) then s[k] else s[k].(perms := s[k].perms * mask)
  {
    ForbiddenByMask(mask);
    forall k | 0 <= k < |s|
      ensures Masked(s, mask)[k] == if Unmasked(s[k].tag) then s[k] else s[k].(perms := s[k].perms * mask)
    {
      var f := ForbiddenBy(mask);
      assert forall p :: p in f <==> p in Elems(f);
    }
  }

  /** A mask granting read, write and execute changes nothing. */
  lemma FullMaskChangesNothing(s: seq<AclEntry>)
    ensures Masked(s, AllPerms) == s
  {
    MaskedIsIntersection(s, AllPerms);
    forall k | 0 <= k < |s|
      ensures Masked(s, AllPerms)[k] == s[k]
    {
      assert s[k].perms * AllPerms == s[k].perms;
    }
  }

  /** Reconciliation is lossy: reconciling with a wider mask afterwards does
      not bring back permissions; two reconciliations are one with the
      intersection of the masks. */
  lemma MaskedLossy(s: seq<AclEntry>, first: set<Perm>, second: set<Perm>)
    ensures Masked(Masked(s, first), second) == Masked(s, first * second)
  {
    var once := Masked(s, first);
    MaskedIsIntersection(s, first);
    MaskedIsIntersection(once, second);
    MaskedIsIntersection(s, first * second);
    forall k | 0 <= k < |s|
      ensures Masked(once, second)[k] == Masked(s, first * second)[k]
    {
      assert once[k].tag == s[k].tag;
      assert s[k].perms * first * second == s[k].perms * (first * second);
    }
  }

  /** `recalc_to_mask` is idempotent. */
  lemma RecalculatedIdempotent(s: seq<AclEntry>)
    ensures Recalculated(Recalculated(s)) == Recalculated(s)
  {
    match FirstOfTag(s, Mask)
    case None =>
    case Some(i) =>
      var m := Masked(s, s[i].perms);
      MaskedIsIntersection(s, s[i].perms);
      FirstOfTagSameTags(s, m, Mask);
      assert m[i] == s[i];
      MaskedLossy(s, s[i].perms, s[i].perms);
      assert s[i].perms * s[i].perms == s[i].perms;
  }

  /** What `get_mask` leaves: the list itself when it has a mask entry,
      otherwise the list with a new, empty mask entry at the end. */
  function WithMask(s: seq<AclEntry>): (r: seq<AclEntry>)
    ensures FirstOfTag(r, Mask).Some?
    ensures FirstOfTag(s, Mask).Some? ==> r == s
    ensures FirstOfTag(s, Mask).None? ==> r == s + [AclEntry(Mask, None, {})]
  {
    if FirstOfTag(s, Mask).Some? then s
    else
      FirstOfTagAppend(s, AclEntry(Mask, None, {}), Mask);
      s + [AclEntry(Mask, None, {})]
  }

  /** The permissions of the first mask entry. */
  function MaskPerms(s: seq<AclEntry>): set<Perm>
    requires FirstOfTag(s, Mask).Some?
  {
    s[FirstOfTag(s, Mask).value].perms
  }

  /** The list after the provider's automatic mask computation has written
      `auto` into the first mask entry. */
  function AutoMasked(s: seq<AclEntry>, auto: set<Perm>): (r: seq<AclEntry>)
    requires FirstOfTag(s, Mask).Some?
    ensures |r| == |s| && FirstOfTag(r, Mask) == FirstOfTag(s, Mask)
    ensures MaskPerms(r) == auto
    ensures forall k :: 0 <= k < |s| ==> r[k].tag == s[k].tag && r[k].qualifier == s[k].qualifier
    ensures forall k :: 0 <= k < |s| && k != FirstOfTag(s, Mask).value ==> r[k] == s[k]
  {
    var i := FirstOfTag(s, Mask).value;
    var r := s[i := s[i].(perms := auto)];
    FirstOfTagSameTags(s, r, Mask);
    r
  }

  /** `calc_mask` compares the mask bits before and after: they differ
      exactly when the mask permission sets differ. */
  lemma BitsInjective(a: set<Perm>, b: set<Perm>)
    ensures Bits(a) == Bits(b) <==> a == b
  {
    if Bits(a) == Bits(b) {
      forall p
        ensures p in a <==> p in b
      {
        assert HasBit(Bits(a), p) <==> p in a;
      }
    }
  }
}
