/**
 * The struct-literal checks of the expression annotator: which literal
 * fields are reported as duplicates, which declared fields are missing from
 * a literal, and when "Some fields are missing" is reported.
 */
module StructLiteralAnnotator {

  /** A field entry of a struct literal body, `name: expr` or the shorthand `name`. */
  datatype LiteralField = LiteralField(name: string, resolvesToFieldDecl: bool)

  /** A field declared by a struct or an enum variant. */
  datatype FieldDecl = FieldDecl(name: string)

  datatype StructKind = Struct | Union

  /** The declaration a struct literal's path resolves to. */
  datatype FieldsOwner =
    | StructItem(kind: StructKind, fields: seq<FieldDecl>)
    | EnumVariant(fields: seq<FieldDecl>)

  /** The body of a struct literal: its fields and whether it ends in `..base` (functional update). */
  datatype StructLiteralBody = StructLiteralBody(fields: seq<LiteralField>, hasDotDot: bool)

  function FieldName(f: LiteralField): string
  {
    f.name
  }

  /** `a` is `b` with some elements left out, the rest in their order. */
  ghost predicate IsSubsequence<T>(a: seq<T>, b: seq<T>)
    decreases |b|
  {
    if a == [] then true
    else if b == [] then false
    else (a[|a| - 1] == b[|b| - 1] && IsSubsequence(a[..|a| - 1], b[..|b| - 1])) || IsSubsequence(a, b[..|b| - 1])
  }

  lemma {:induction false} SubsequenceLength<T>(a: seq<T>, b: seq<T>)
    requires IsSubsequence(a, b)
    ensures |a| <= |b|
    decreases |b|
  {
    if a != [] {
      if a[|a| - 1] == b[|b| - 1] && IsSubsequence(a[..|a| - 1], b[..|b| - 1]) {
        SubsequenceLength(a[..|a| - 1], b[..|b| - 1]);
      } else {
        SubsequenceLength(a, b[..|b| - 1]);
      }
    }
  }

  // ---------------------------------------------------------------------------
  // findDuplicateReferences
  // ---------------------------------------------------------------------------

  /** The names of the first `n` items. */
  function NamesBefore<T>(items: seq<T>, nameOf: T -> string, n: nat): set<string>
    requires n <= |items|
  {
    set i | 0 <= i < n :: nameOf(items[i])
  }

  /** The items among the first `n` whose name an earlier item already has, in order. */
  function Duplicates<T>(items: seq<T>, nameOf: T -> string, n: nat): seq<T>
    requires n <= |items|
  {
    if n == 0 then []
    else
      Duplicates(items, nameOf, n - 1)
        + (if nameOf(items[n - 1]) in NamesBefore(items, nameOf, n - 1) then [items[n - 1]] else [])
  }

  /** The positions of the items `Duplicates` picks. */
  function DuplicateIndices<T>(items: seq<T>, nameOf: T -> string, n: nat): seq<nat>
    requires n <= |items|
  {
    if n == 0 then []
    else
      DuplicateIndices(items, nameOf, n - 1)
        + (if nameOf(items[n - 1]) in NamesBefore(items, nameOf, n - 1) then [n - 1] else [])
  }

  /** Some item before position `i` has the same name as the item at `i`. */
  ghost predicate HasEarlier<T>(items: seq<T>, nameOf: T -> string, i: nat)
    requires i < |items|
  {
    exists j :: 0 <= j < i && nameOf(items[j]) == nameOf(items[i])
  }

  /**
   * The duplicates are exactly the items, in input order, whose name equals
   * the name of some earlier item: their positions ascend strictly, and a
   * position is among them iff an earlier item has the same name (so the
   * first occurrence of a name never is).
   */
  lemma {:induction false} DuplicatesAreLaterOccurrences<T>(items: seq<T>, nameOf: T -> string, n: nat)
    requires n <= |items|
    ensures var dups, idx := Duplicates(items, nameOf, n), DuplicateIndices(items, nameOf, n);
      && |dups| == |idx|
      && (forall k :: 0 <= k < |idx| ==> idx[k] < n && dups[k] == items[idx[k]])
      && (forall k, l :: 0 <= k < l < |idx| ==> idx[k] < idx[l])
      && (forall i :: 0 <= i < n ==> (i in idx <==> HasEarlier(items, nameOf, i)))
  {
    if n > 0 {
      DuplicatesAreLaterOccurrences(items, nameOf, n - 1);
      var m := n - 1;
      var idx := DuplicateIndices(items, nameOf, n);
      assert nameOf(items[m]) in NamesBefore(items, nameOf, m) <==> HasEarlier(items, nameOf, m) by {
        if HasEarlier(items, nameOf, m) {
          var j :| 0 <= j < m && nameOf(items[j]) == nameOf(items[m]);
          assert nameOf(items[j]) in NamesBefore(items, nameOf, m);
        }
      }
      forall i | 0 <= i < n
        ensures i in idx <==> HasEarlier(items, nameOf, i)
      {
        if i < m {
          assert i in idx <==> i in DuplicateIndices(items, nameOf, m);
        }
      }
    }
  }

  /** How many items of `s` are named `name`. */
  function CountNamed<T>(s: seq<T>, nameOf: T -> string, name: string): nat
  {
    if s == [] then 0
    else CountNamed(s[..|s| - 1], nameOf, name) + (if nameOf(s[|s| - 1]) == name then 1 else 0)
  }

  lemma {:induction false} SeenIffCounted<T>(items: seq<T>, nameOf: T -> string, name: string, n: nat)
    requires n <= |items|
    ensures name in NamesBefore(items, nameOf, n) <==> CountNamed(items[..n], nameOf, name) > 0
  {
    if n > 0 {
      SeenIffCounted(items, nameOf, name, n - 1);
      assert items[..n][..n - 1] == items[..n - 1];
      assert NamesBefore(items, nameOf, n) == NamesBefore(items, nameOf, n - 1) + {nameOf(items[n - 1])};
    }
  }

  /** A name that occurs k > 0 times among the first `n` items is reported k - 1 times. */
  lemma {:induction false} DuplicateCount<T>(items: seq<T>, nameOf: T -> string, name: string, n: nat)
    requires n <= |items|
    ensures var occurrences := CountNamed(items[..n], nameOf, name);
      CountNamed(Duplicates(items, nameOf, n), nameOf, name) == if occurrences == 0 then 0 else occurrences - 1
  {
    if n > 0 {
      DuplicateCount(items, nameOf, name, n - 1);
      SeenIffCounted(items, nameOf, nameOf(items[n - 1]), n - 1);
      assert items[..n][..n - 1] == items[..n - 1];
      var previous := Duplicates(items, nameOf, n - 1);
      if nameOf(items[n - 1]) in NamesBefore(items, nameOf, n - 1) {
        assert (previous + [items[n - 1]])[..|previous|] == previous;
      } else {
        assert previous + [] == previous;
      }
    }
  }

  /** Nothing is reported iff the names are pairwise distinct. */
  lemma NoDuplicatesIffDistinct<T>(items: seq<T>, nameOf: T -> string)
    ensures Duplicates(items, nameOf, |items|) == [] <==>
      forall i, j :: 0 <= i < j < |items| ==> nameOf(items[i]) != nameOf(items[j])
  {
    var n := |items|;
    DuplicatesAreLaterOccurrences(items, nameOf, n);
    var idx := DuplicateIndices(items, nameOf, n);
    if Duplicates(items, nameOf, n) != [] {
      var i := idx[0];
      assert HasEarlier(items, nameOf, i);
    } else {
      forall i, j | 0 <= i < j < n ensures nameOf(items[i]) != nameOf(items[j]) {
        assert j !in idx;
      }
    }
  }

  /** The duplicates keep the order of the input: they are a subsequence of it. */
  lemma {:induction false} DuplicatesSubsequence<T>(items: seq<T>, nameOf: T -> string, n: nat)
    requires n <= |items|
    ensures IsSubsequence(Duplicates(items, nameOf, n), items[..n])
  {
    if n > 0 {
      DuplicatesSubsequence(items, nameOf, n - 1);
      var previous := Duplicates(items, nameOf, n - 1);
      assert items[..n][..n - 1] == items[..n - 1];
      if nameOf(items[n - 1]) in NamesBefore(items, nameOf, n - 1) {
        assert (previous + [items[n - 1]])[..|previous|] == previous;
      } else {
        assert previous + [] == previous;
      }
    }
  }

  /** Reports, in order, every item whose name an earlier item already has. */
  method FindDuplicateReferences<T>(items: seq<T>, nameOf: T -> string) returns (result: seq<T>)
    ensures result == Duplicates(items, nameOf, |items|)
  {
    var names: set<string> := {};
    result := [];
    for i := 0 to |items|
      invariant names == NamesBefore(items, nameOf, i)
      invariant result == Duplicates(items, nameOf, i)
    {
      var name := nameOf(items[i]);
      if name in names {
        result := result + [items[i]];
      }
      names := names + {name};
      assert NamesBefore(items, nameOf, i + 1) == NamesBefore(items, nameOf, i) + {name};
    }
  }

  // ---------------------------------------------------------------------------
  // calculateMissingFields
  // ---------------------------------------------------------------------------

  /** The fields whose name is not in `mentioned`, in declaration order. */
  function Unmentioned(fields: seq<FieldDecl>, mentioned: set<string>): (r: seq<FieldDecl>)
    ensures forall f :: f in r <==> f in fields && f.name !in mentioned
  {
    if fields == [] then []
    else
      var init, last := fields[..|fields| - 1], fields[|fields| - 1];
      assert fields == init + [last];
      Unmentioned(init, mentioned) + (if last.name in mentioned then [] else [last])
  }

  /** The names the literal mentions. */
  function LiteralNames(body: StructLiteralBody): set<string>
  {
    set f | f in body.fields :: f.name
  }

  /** The declared fields the literal does not mention. */
  function MissingFields(body: StructLiteralBody, decl: FieldsOwner): (r: seq<FieldDecl>)
    ensures forall f :: f in r <==> f in decl.fields && forall g :: g in body.fields ==> g.name != f.name
  {
    Unmentioned(decl.fields, LiteralNames(body))
  }

  /** Every unmentioned field is kept as often as it is declared; a mentioned one never is. */
  lemma {:induction false} UnmentionedCounts(fields: seq<FieldDecl>, mentioned: set<string>)
    ensures forall f :: multiset(Unmentioned(fields, mentioned))[f] == if f.name in mentioned then 0 else multiset(fields)[f]
  {
    if fields != [] {
      var init, last := fields[..|fields| - 1], fields[|fields| - 1];
      UnmentionedCounts(init, mentioned);
      assert fields == init + [last];
    }
  }

  /** A declared field is missing as often as it is declared, unless some literal field has its name. */
  lemma MissingFieldsCounts(body: StructLiteralBody, decl: FieldsOwner)
    ensures forall f :: multiset(MissingFields(body, decl))[f] == (if exists g :: g in body.fields && g.name == f.name then 0 else multiset(decl.fields)[f])
  {
    UnmentionedCounts(decl.fields, LiteralNames(body));
    forall f: FieldDecl ensures (exists g :: g in body.fields && g.name == f.name) <==> f.name in LiteralNames(body) {
    }
  }

  lemma {:induction false} UnmentionedSubsequence(fields: seq<FieldDecl>, mentioned: set<string>)
    ensures IsSubsequence(Unmentioned(fields, mentioned), fields)
  {
    if fields != [] {
      var init, last := fields[..|fields| - 1], fields[|fields| - 1];
      UnmentionedSubsequence(init, mentioned);
      var previous := Unmentioned(init, mentioned);
      if last.name !in mentioned {
        assert (previous + [last])[..|previous|] == previous;
      } else {
        assert previous + [] == previous;
      }
    }
  }

  /** Mentioning more names leaves a subsequence of what was missing before. */
  lemma {:induction false} UnmentionedAntitone(fields: seq<FieldDecl>, fewer: set<string>, more: set<string>)
    requires fewer <= more
    ensures IsSubsequence(Unmentioned(fields, more), Unmentioned(fields, fewer))
  {
    if fields != [] {
      var init, last := fields[..|fields| - 1], fields[|fields| - 1];
      UnmentionedAntitone(init, fewer, more);
      var small, large := Unmentioned(init, more), Unmentioned(init, fewer);
      if last.name in more {
        if last.name !in fewer {
          assert (large + [last])[..|large|] == large;
        } else {
          assert large + [] == large;
        }
        assert small + [] == small;
      } else {
        assert (small + [last])[..|small|] == small;
        assert (large + [last])[..|large|] == large;
      }
    }
  }

  /** The missing fields are a subsequence of the declared fields. */
  lemma MissingFieldsSubsequence(body: StructLiteralBody, decl: FieldsOwner)
    ensures IsSubsequence(MissingFields(body, decl), decl.fields)
  {
    UnmentionedSubsequence(decl.fields, LiteralNames(body));
  }

  /** Adding fields to a literal never adds to what is missing. */
  lemma MoreFieldsNeverMoreMissing(body: StructLiteralBody, extra: seq<LiteralField>, decl: FieldsOwner)
    ensures var larger := body.(fields := body.fields + extra);
      && IsSubsequence(MissingFields(larger, decl), MissingFields(body, decl))
      && |MissingFields(larger, decl)| <= |MissingFields(body, decl)|
  {
    var larger := body.(fields := body.fields + extra);
    assert LiteralNames(body) <= LiteralNames(larger) by {
      forall name | name in LiteralNames(body) ensures name in LiteralNames(larger) {
        var f :| f in body.fields && f.name == name;
        assert f in larger.fields;
      }
    }
    UnmentionedAntitone(decl.fields, LiteralNames(body), LiteralNames(larger));
    SubsequenceLength(MissingFields(larger, decl), MissingFields(body, decl));
  }

  // ---------------------------------------------------------------------------
  // checkStructLiteral
  // ---------------------------------------------------------------------------

  predicate IsUnion(decl: FieldsOwner)
  {
    decl.StructItem? && decl.kind == Union
  }

  /**
   * Whether "Some fields are missing" is reported. `existsAfterExpansion` and
   * `hasStructPath` stand for the literal surviving macro expansion and the
   * literal having a path to highlight.
   */
  function ReportsMissingFields(decl: FieldsOwner, body: StructLiteralBody, existsAfterExpansion: bool, hasStructPath: bool): (r: bool)
    ensures body.hasDotDot ==> !r
    ensures IsUnion(decl) ==> !r
    ensures (forall f :: f in decl.fields ==> exists g :: g in body.fields && g.name == f.name) ==> !r
    ensures r <==>
      && !body.hasDotDot
      && !IsUnion(decl)
      && (exists f :: f in decl.fields && forall g :: g in body.fields ==> g.name != f.name)
      && existsAfterExpansion
      && hasStructPath
  {
    var missing := MissingFields(body, decl);
    assert missing != [] ==> missing[0] in missing;
    !body.hasDotDot && !IsUnion(decl) && missing != [] && existsAfterExpansion && hasStructPath
  }

  datatype Annotation = NoSuchField(field: LiteralField) | DuplicateField(field: LiteralField) | SomeFieldsMissing

  /** A "No such field" annotation for each literal field that resolves to no field declaration. */
  function UnknownFieldAnnotations(fields: seq<LiteralField>): (r: seq<Annotation>)
    ensures forall a :: a in r <==> a.NoSuchField? && a.field in fields && !a.field.resolvesToFieldDecl
  {
    if fields == [] then []
    else
      var init, last := fields[..|fields| - 1], fields[|fields| - 1];
      assert fields == init + [last];
      UnknownFieldAnnotations(init) + (if last.resolvesToFieldDecl then [] else [NoSuchField(last)])
  }

  /** Each unresolved literal field gets one "No such field" per occurrence; a resolved one gets none. */
  lemma {:induction false} UnknownFieldCounts(fields: seq<LiteralField>)
    ensures forall f :: multiset(UnknownFieldAnnotations(fields))[NoSuchField(f)] == (if f.resolvesToFieldDecl then 0 else multiset(fields)[f])
  {
    if fields != [] {
      var init, last := fields[..|fields| - 1], fields[|fields| - 1];
      UnknownFieldCounts(init);
      assert fields == init + [last];
    }
  }

  /** A "No such field" annotation for every literal field, resolved or not, in order. */
  function AllAsUnknown(fields: seq<LiteralField>): seq<Annotation>
  {
    if fields == [] then [] else AllAsUnknown(fields[..|fields| - 1]) + [NoSuchField(fields[|fields| - 1])]
  }

  /** The "No such field" annotations follow the order of the literal's fields. */
  lemma {:induction false} UnknownFieldsInOrder(fields: seq<LiteralField>)
    ensures IsSubsequence(UnknownFieldAnnotations(fields), AllAsUnknown(fields))
  {
    if fields != [] {
      var init, last := fields[..|fields| - 1], fields[|fields| - 1];
      UnknownFieldsInOrder(init);
      var previous, all := UnknownFieldAnnotations(init), AllAsUnknown(init);
      assert (all + [NoSuchField(last)])[..|all|] == all;
      if !last.resolvesToFieldDecl {
        assert (previous + [NoSuchField(last)])[..|previous|] == previous;
      } else {
        assert previous + [] == previous;
      }
    }
  }

  /** A "Duplicate field" annotation for each reported field. */
  function DuplicateAnnotations(duplicates: seq<LiteralField>): (r: seq<Annotation>)
    ensures |r| == |duplicates|
    ensures forall i :: 0 <= i < |r| ==> r[i] == DuplicateField(duplicates[i])
  {
    if duplicates == [] then []
    else DuplicateAnnotations(duplicates[..|duplicates| - 1]) + [DuplicateField(duplicates[|duplicates| - 1])]
  }

  /** Neither per-field report ever contains "Some fields are missing". */
  lemma FieldReportsOnly(fields: seq<LiteralField>, duplicates: seq<LiteralField>)
    ensures SomeFieldsMissing !in UnknownFieldAnnotations(fields) + DuplicateAnnotations(duplicates)
  {
    var unknown, repeated := UnknownFieldAnnotations(fields), DuplicateAnnotations(duplicates);
    assert SomeFieldsMissing !in unknown;
    assert SomeFieldsMissing !in repeated;
  }

  /** Appending the missing-fields report to reports without one contains it iff it was appended. */
  lemma MissingReportLast(fieldReports: seq<Annotation>, reports: bool)
    requires SomeFieldsMissing !in fieldReports
    ensures SomeFieldsMissing in fieldReports + (if reports then [SomeFieldsMissing] else []) <==> reports
  {
    if !reports {
      assert fieldReports + [] == fieldReports;
    }
  }

  /** Reports "No such field" on each literal field that resolves to no field declaration. */
  method ReportUnknownFields(fields: seq<LiteralField>) returns (annotations: seq<Annotation>)
    ensures annotations == UnknownFieldAnnotations(fields)
  {
    annotations := [];
    for i := 0 to |fields|
      invariant annotations == UnknownFieldAnnotations(fields[..i])
    {
      if !fields[i].resolvesToFieldDecl {
        annotations := annotations + [NoSuchField(fields[i])];
      }
      assert fields[..i + 1][..i] == fields[..i];
    }
    assert fields[..|fields|] == fields;
  }

  /** Reports "Duplicate field" on each of `duplicates`, in order. */
  method ReportDuplicateFields(duplicates: seq<LiteralField>) returns (annotations: seq<Annotation>)
    ensures annotations == DuplicateAnnotations(duplicates)
  {
    annotations := [];
    for i := 0 to |duplicates|
      invariant annotations == DuplicateAnnotations(duplicates[..i])
    {
      annotations := annotations + [DuplicateField(duplicates[i])];
      assert duplicates[..i + 1][..i] == duplicates[..i];
    }
    assert duplicates[..|duplicates|] == duplicates;
  }

  /** The annotations the annotator creates for a struct literal resolved to `decl`. */
  method CheckStructLiteral(decl: FieldsOwner, body: StructLiteralBody, existsAfterExpansion: bool, hasStructPath: bool)
    returns (annotations: seq<Annotation>)
    ensures annotations ==
      UnknownFieldAnnotations(body.fields)
        + DuplicateAnnotations(Duplicates(body.fields, FieldName, |body.fields|))
        + (if ReportsMissingFields(decl, body, existsAfterExpansion, hasStructPath) then [SomeFieldsMissing] else [])
    ensures SomeFieldsMissing in annotations <==> ReportsMissingFields(decl, body, existsAfterExpansion, hasStructPath)
  {
    ghost var reports := ReportsMissingFields(decl, body, existsAfterExpansion, hasStructPath);
    var unknown := ReportUnknownFields(body.fields);
    var duplicates := FindDuplicateReferences(body.fields, FieldName);
    var duplicateAnnotations := ReportDuplicateFields(duplicates);
    annotations := unknown + duplicateAnnotations;
    FieldReportsOnly(body.fields, duplicates);
    MissingReportLast(annotations, reports);

    if body.hasDotDot {
      assert annotations + [] == annotations;
      return;
    }
    if decl.StructItem? && decl.kind == Union {
      assert annotations + [] == annotations;
      return;
    }
    var missing := MissingFields(body, decl);
    if |missing| > 0 {
      if !existsAfterExpansion {
        assert annotations + [] == annotations;
        return;
      }
      if hasStructPath {
        annotations := annotations + [SomeFieldsMissing];
        return;
      }
    }
    assert annotations + [] == annotations;
  }
}
