/**
 DfsController::fetchFragments, which cuts a file into fragments for sending,
 and what the receiver's insertFragment makes of them.
 */
module FileCutter {
  import opened Arithmetic
  import opened Wrappers
  import opened Bytes
  import opened DiskFiles
  import opened FragmentTable
  import opened FragmentInsert
  import opened ArrivalOrder

  /** DFSB::maxSectionSize. */
  const MAX_SECTION_SIZE: nat := 209715200

  /** The bytes of a fragment that is not the last: the sections it takes to pass maxSectionSize. */
  function FullSize(section: nat, maxSize: nat): (n: nat)
    requires section > 0
    ensures n >= section && n > maxSize
  {
    PastMax(section, maxSize);
    (maxSize / section + 1) * section
  }

  lemma PastMax(section: nat, maxSize: nat)
    requires section > 0
    ensures (maxSize / section + 1) * section > maxSize
    ensures (maxSize / section + 1) * section >= section
    ensures (maxSize / section) * section <= maxSize
    ensures (maxSize / section + 1) * section == (maxSize / section) * section + section
  {
    var q := maxSize / section;
    assert maxSize == q * section + maxSize % section;
    Multiple(q + 1, section);
    assert (q + 1) * section == q * section + section;
  }

  /** The whole sections that fit before the last, non-empty part of n bytes. */
  function LastAdvance(n: nat, section: nat): nat
    requires n > 0 && section > 0
  {
    (n - 1) / section * section
  }

  /**
   The fragments from position `at` on, as (Offset, Data) pairs. Each carries
   the position after its whole sections as its Offset.
   */
  function Cut(f: Bytes, at: nat, section: nat, full: nat): (r: Pieces)
    requires at < |f| && 0 < section <= full
    ensures r != []
    decreases |f| - at
  {
    var n := |f| - at;
    if n > full then [(at + full, f[at..at + full])] + Cut(f, at + full, section, full)
    else [(at + LastAdvance(n, section), f[at..])]
  }

  function Data(pieces: Pieces): (r: seq<Bytes>)
    ensures |r| == |pieces|
  {
    seq(|pieces|, i requires 0 <= i < |pieces| => pieces[i].1)
  }

  /** The fragments' data, joined in order, is exactly the file. */
  lemma {:induction false} DataJoinsToFile(f: Bytes, at: nat, section: nat, full: nat)
    requires at < |f| && 0 < section <= full
    ensures Concat(Data(Cut(f, at, section, full))) == f[at..]
    decreases |f| - at
  {
    var c := Cut(f, at, section, full);
    if |f| - at > full {
      var rest := Cut(f, at + full, section, full);
      DataJoinsToFile(f, at + full, section, full);
      assert Data(c)[1..] == Data(rest);
      assert f[at..] == f[at..at + full] + f[at + full..];
    } else {
      assert Data(c) == [f[at..]];
      ConcatOne(f[at..]);
    }
  }

  /**
   Fragments of f, from position `at` on: their data is the rest of f. All but
   the last have the least multiple of section above maxSize as their size and
   the position behind their data as Offset; the last one's Offset is the
   multiple of section that leaves a last section of f, at most maxSize on.
   */
  ghost predicate CutFrom(pieces: Pieces, f: Bytes, at: nat, section: nat, maxSize: nat)
    requires section > 0
    decreases |pieces|
  {
    && pieces != [] && pieces[0].0 % section == 0
    && at + |pieces[0].1| <= |f| && pieces[0].1 == f[at..at + |pieces[0].1|]
    && if |pieces| == 1 then
         at + |pieces[0].1| == |f| && at <= pieces[0].0 <= at + maxSize && 0 < |f| - pieces[0].0 <= section
       else
         && pieces[0].0 == at + |pieces[0].1| && maxSize < |pieces[0].1| <= maxSize + section
         && CutFrom(pieces[1..], f, pieces[0].0, section, maxSize)
  }

  /** Only one list of fragments is like that. */
  lemma {:induction false} CutIsUnique(p: Pieces, q: Pieces, f: Bytes, at: nat, section: nat, maxSize: nat)
    requires section > 0 && CutFrom(p, f, at, section, maxSize) && CutFrom(q, f, at, section, maxSize)
    ensures p == q
    decreases |p|
  {
    CutReaches(p, f, at, section, maxSize);
    CutReaches(q, f, at, section, maxSize);
    NearMultiples(p[0].0, q[0].0, section);
    assert p == [p[0]] + p[1..] && q == [q[0]] + q[1..];
    if |p| > 1 && |q| > 1 {
      CutIsUnique(p[1..], q[1..], f, p[0].0, section, maxSize);
    }
  }

  /** The first Offset lies in the last section that starts within maxSize, or right behind one that ends above it. */
  lemma CutReaches(p: Pieces, f: Bytes, at: nat, section: nat, maxSize: nat)
    requires section > 0 && CutFrom(p, f, at, section, maxSize)
    ensures p[0].0 < |f|
    ensures if |p| == 1 then p[0].0 <= at + maxSize && |f| - p[0].0 <= section
            else at + maxSize < p[0].0 <= at + maxSize + section
  {
    if |p| > 1 {
      assert CutFrom(p[1..], f, p[0].0, section, maxSize);
    }
  }

  lemma {:induction false} CutIsCut(f: Bytes, at: nat, section: nat, maxSize: nat)
    requires at < |f| && section > 0 && at % section == 0
    ensures CutFrom(Cut(f, at, section, FullSize(section, maxSize)), f, at, section, maxSize)
    decreases |f| - at
  {
    hide FullSize, LastAdvance;
    var full, n := FullSize(section, maxSize), |f| - at;
    var c := Cut(f, at, section, full);
    FullSizeExactly(section, maxSize);
    if n > full {
      SumMod(at, full, section);
      CutIsCut(f, at + full, section, maxSize);
      assert c[1..] == Cut(f, at + full, section, full);
    } else {
      LastAdvanceExactly(n, section);
      LastAdvanceWithin(n, section, maxSize);
      SumMod(at, LastAdvance(n, section), section);
      assert c == [(at + LastAdvance(n, section), f[at..])];
    }
  }

  /** A last part of at most a full fragment has no whole sections beyond maxSize before its last one. */
  lemma LastAdvanceWithin(n: nat, section: nat, maxSize: nat)
    requires section > 0 && 0 < n <= FullSize(section, maxSize)
    ensures LastAdvance(n, section) <= maxSize
  {
    hide FullSize, LastAdvance;
    LastAdvanceExactly(n, section);
    FullSizeExactly(section, maxSize);
    if LastAdvance(n, section) > maxSize {
      NearMultiples(LastAdvance(n, section), FullSize(section, maxSize), section);
    }
  }

  lemma FullSizeExactly(section: nat, maxSize: nat)
    requires section > 0
    ensures maxSize < FullSize(section, maxSize) <= maxSize + section && FullSize(section, maxSize) % section == 0
  {
    PastMax(section, maxSize);
    MultipleMod(maxSize / section + 1, section);
  }

  lemma LastAdvanceExactly(n: nat, section: nat)
    requires n > 0 && section > 0
    ensures LastAdvance(n, section) % section == 0 && 0 < n - LastAdvance(n, section) <= section
  {
    var q := (n - 1) / section;
    assert n - 1 == q * section + (n - 1) % section;
    MultipleMod(q, section);
  }

  /** extractFragment. */
  function Extract(f: Bytes, offset: nat, size: nat): Bytes
    requires offset + size <= |f|
  {
    f[offset..offset + size]
  }

  /** fetchFragments on an existing file; the fragments in the order they are sent. */
  method FetchFragments(f: Bytes, section: nat, maxSize: nat) returns (sent: Pieces)
    requires section > 0
    ensures f == [] ==> sent == []
    ensures f != [] ==> sent == Cut(f, 0, section, FullSize(section, maxSize))
    ensures f != [] ==> CutFrom(sent, f, 0, section, maxSize)
  {
    hide Cut, FullSize, CutFrom;
    if f != [] {
      SmallMod(0, section);
      CutIsCut(f, 0, section, maxSize);
    }
    sent := [];
    var fileSize := |f|;
    if fileSize == 0 {
      return;
    }
    var totalOffset, lastFragment := 0, false;
    ghost var full := FullSize(section, maxSize);
    while !lastFragment
      invariant !lastFragment ==> totalOffset < fileSize && sent + Cut(f, totalOffset, section, full) == Cut(f, 0, section, full)
      invariant lastFragment ==> sent == Cut(f, 0, section, full)
      decreases if lastFragment then 0 else fileSize - totalOffset
    {
      ghost var at := totalOffset;
      var data;
      data, totalOffset, lastFragment := CollectSections(f, totalOffset, section, maxSize);
      ghost var was := sent;
      sent := sent + [(totalOffset, data)];
      CutUnfold(was, f, at, section, full);
    }
  }

  lemma CutUnfold(sent: Pieces, f: Bytes, at: nat, section: nat, full: nat)
    requires at < |f| && 0 < section <= full
    ensures var n := |f| - at;
            sent + Cut(f, at, section, full)
            == if n > full then sent + [(at + full, f[at..at + full])] + Cut(f, at + full, section, full)
               else sent + [(at + LastAdvance(n, section), f[at..])]
  {
  }

  /** The inner loop: sections are collected until they pass maxSize or the last part is reached. */
  method CollectSections(f: Bytes, start: nat, section: nat, maxSize: nat)
    returns (data: Bytes, totalOffset: nat, lastFragment: bool)
    requires section > 0 && start < |f|
    ensures var full, n := FullSize(section, maxSize), |f| - start;
            && lastFragment == (n <= full)
            && totalOffset == start + (if n > full then full else LastAdvance(n, section))
            && data == if n > full then f[start..start + full] else f[start..]
    ensures totalOffset < |f| && (lastFragment ==> 0 < |f| - totalOffset <= section)
  {
    assert Whole(0, section);
    hide FullSize, LastAdvance, Whole;
    data, totalOffset, lastFragment := [], start, false;
    var limitSectionSize := 0;
    while limitSectionSize <= maxSize && !lastFragment
      invariant Whole(limitSectionSize, section)
      invariant limitSectionSize == 0 || section <= limitSectionSize <= maxSize + section
      invariant totalOffset == start + limitSectionSize < |f|
      invariant !lastFragment ==> data == f[start..totalOffset]
      invariant lastFragment ==> data == f[start..] && limitSectionSize <= maxSize && |f| - totalOffset <= section
      decreases !lastFragment, maxSize + section - limitSectionSize
    {
      if |f| - totalOffset > section {
        data := data + Extract(f, totalOffset, section);
        totalOffset := totalOffset + section;
        OneMore(limitSectionSize, section);
        limitSectionSize := limitSectionSize + section;
      } else {
        lastFragment := true;
        data := data + f[totalOffset..];
      }
    }
    if lastFragment {
      LastSection(|f| - start, limitSectionSize, section, maxSize);
    } else {
      SectionsPastMax(limitSectionSize, section, maxSize);
    }
  }

  predicate Whole(size: nat, section: nat)
    requires section > 0
  {
    size % section == 0
  }

  lemma OneMore(size: nat, section: nat)
    requires section > 0 && Whole(size, section)
    ensures Whole(size + section, section)
  {
    ModStep(size + section, section);
  }

  lemma LastSection(n: nat, size: nat, section: nat, maxSize: nat)
    requires section > 0 && Whole(size, section) && 0 < n - size <= section && size <= maxSize
    ensures n <= FullSize(section, maxSize) && LastAdvance(n, section) == size
  {
    QuotientIs(n - 1, section, size / section, n - 1 - size);
    SectionsWithin(size / section, section, maxSize);
  }

  lemma SectionsPastMax(size: nat, section: nat, maxSize: nat)
    requires section > 0 && Whole(size, section) && 0 <= size - section <= maxSize < size
    ensures FullSize(section, maxSize) == size
  {
    QuotientIs(maxSize, section, size / section - 1, maxSize - (size - section));
  }

  lemma SectionsWithin(sections: nat, section: nat, maxSize: nat)
    requires section > 0 && sections * section <= maxSize
    ensures sections * section + section <= FullSize(section, maxSize)
  {
    PastMax(section, maxSize);
    if sections > maxSize / section {
      Multiple(sections - maxSize / section, section);
    } else {
      Multiple(maxSize / section - sections, section);
    }
  }

  // ----- What is sent -----

  ghost predicate Distinct(pieces: Pieces) {
    forall i, j :: 0 <= i < j < |pieces| ==> pieces[i].0 != pieces[j].0
  }

  /** What is left of n bytes after taking full fragments while more than one is left: at most one section? */
  predicate TailIsOneSection(n: nat, section: nat, full: nat)
    requires full > 0
  {
    if n > full then TailIsOneSection(n - full, section, full) else n <= section
  }

  lemma {:induction false} TailByRemainder(n: nat, section: nat, full: nat)
    requires n > 0 && full > 0
    ensures TailIsOneSection(n, section, full) <==> (n - 1) % full < section
  {
    if n > full {
      TailByRemainder(n - full, section, full);
      ModStep(n - 1, full);
    } else {
      SmallMod(n - 1, full);
    }
  }

  /** n bytes end, after at least one full fragment, in a part of at most one section. */
  predicate LastPartAlone(n: nat, section: nat, full: nat)
    requires full > 0
  {
    n > full && (n - 1) % full < section
  }

  lemma LastAdvanceIsZero(n: nat, section: nat)
    requires n > 0 && section > 0
    ensures LastAdvance(n, section) <= n - 1
    ensures LastAdvance(n, section) == 0 <==> n <= section
  {
    var q := (n - 1) / section;
    assert n - 1 == q * section + (n - 1) % section;
    Multiple(q, section);
  }

  lemma {:induction false} OffsetsFrom(f: Bytes, at: nat, section: nat, full: nat, i: nat)
    requires at < |f| && 0 < section <= full && i < |Cut(f, at, section, full)|
    ensures at <= Cut(f, at, section, full)[i].0
    ensures |f| - at > section ==> at < Cut(f, at, section, full)[i].0
    decreases |f| - at
  {
    if |f| - at > full {
      if i > 0 {
        OffsetsFrom(f, at + full, section, full, i - 1);
      }
    } else {
      LastAdvanceIsZero(|f| - at, section);
    }
  }

  /** The Offsets are pairwise distinct unless the last part, alone in its fragment, repeats the Offset before it. */
  lemma OffsetsDistinctExactly(f: Bytes, section: nat, full: nat)
    requires f != [] && 0 < section <= full
    ensures Distinct(Cut(f, 0, section, full)) <==> !LastPartAlone(|f|, section, full)
  {
    DistinctFrom(f, 0, section, full);
    TailByRemainder(|f|, section, full);
  }

  lemma {:induction false} DistinctFrom(f: Bytes, at: nat, section: nat, full: nat)
    requires at < |f| && 0 < section <= full
    ensures Distinct(Cut(f, at, section, full)) <==> !(|f| - at > full && TailIsOneSection(|f| - at, section, full))
    decreases |f| - at
  {
    var n := |f| - at;
    if n > full {
      var c, rest := Cut(f, at, section, full), Cut(f, at + full, section, full);
      DistinctFrom(f, at + full, section, full);
      assert forall i :: 0 < i < |c| ==> c[i] == rest[i - 1];
      if n - full > section {
        forall i | 0 <= i < |rest|
          ensures rest[i].0 != at + full
        {
          OffsetsFrom(f, at + full, section, full, i);
        }
        RestDecides(c, rest);
      } else {
        LastAdvanceIsZero(n - full, section);
        assert c[1].0 == c[0].0;
      }
    }
  }

  lemma RestDecides(c: Pieces, rest: Pieces)
    requires |c| == |rest| + 1 && forall i :: 0 < i < |c| ==> c[i] == rest[i - 1]
    requires forall i :: 0 <= i < |rest| ==> rest[i].0 != c[0].0
    ensures Distinct(c) <==> Distinct(rest)
  {
    if Distinct(c) {
      forall i, j | 0 <= i < j < |rest|
        ensures rest[i].0 != rest[j].0
      {
        assert c[i + 1] == rest[i] && c[j + 1] == rest[j];
      }
    }
  }
}
