/**
 * The lostness index of a search result: a score that grows with missing metadata
 * (creator, subject, language) and with rarity (few downloads).
 */
module Lostness {
  import opened Wrappers
  import opened ArchiveTypes

  const CreatorPenalty := 30
  const SubjectPenalty := 25
  const LanguagePenalty := 15
  /** The largest contribution the download count can make. */
  const RarityCap := 30

  /** `!v || (Array.isArray(v) && v.length === 0)`: absent, the empty string, or an empty list. */
  predicate MultiMissing(m: Multi)
  {
    match m
    case Absent => true
    case One(text) => |text| == 0
    case Many(texts) => |texts| == 0
  }

  /** `!item.language`: absent or the empty string. */
  predicate LanguageMissing(language: Option<string>)
  {
    language.None? || |language.value| == 0
  }

  /** `item.downloads ?? 0`. */
  function DownloadsOrZero(item: ArchiveItem): int
  {
    item.downloads.GetOr(0)
  }

  /**
   * `Math.round(100 / m)` for a non-zero integer `m`: the integer nearest to 100/m,
   * halves rounded up, that is the floor of 100/m + 1/2 = (200 + m) / (2m).
   */
  function RoundedQuotient(m: int): int
    requires m != 0
  {
    if m > 0 then (200 + m) / (2 * m) else (-(200 + m)) / (-2 * m)
  }

  /** `Math.min(30, Math.round(100 / (downloads + 1)))`; at downloads = -1 the quotient is Infinity. */
  function Rarity(downloads: int): int
  {
    var m := downloads + 1;
    if m == 0 then RarityCap
    else
      var r := RoundedQuotient(m);
      if r < RarityCap then r else RarityCap
  }

  /** The score as the source's sum of its four terms. */
  function LostnessIndex(item: ArchiveItem): int
  {
    (if MultiMissing(item.creator) then CreatorPenalty else 0)
    + (if MultiMissing(item.subject) then SubjectPenalty else 0)
    + (if LanguageMissing(item.language) then LanguagePenalty else 0)
    + Rarity(DownloadsOrZero(item))
  }

  /** `calculateLostnessIndex`: accumulates the score term by term. */
  method CalculateLostnessIndex(item: ArchiveItem) returns (score: int)
    ensures score == LostnessIndex(item)
  {
    score := 0;
    if MultiMissing(item.creator) {
      score := score + 30;
    }
    if MultiMissing(item.subject) {
      score := score + 25;
    }
    if LanguageMissing(item.language) {
      score := score + 15;
    }
    var downloads := if item.downloads.Some? then item.downloads.value else 0;
    var m := downloads + 1;
    if m == 0 {
      score := score + 30;
    } else {
      var downloadScore := if m > 0 then (200 + m) / (2 * m) else (-(200 + m)) / (-2 * m);
      score := score + (if downloadScore < 30 then downloadScore else 30);
    }
  }

  // ---------------------------------------------------------------------------
  // Rounding

  /** For m > 0 the quotient q is the nearest integer: q - 1/2 <= 100/m < q + 1/2. */
  lemma RoundedQuotientPositive(m: int)
    requires m > 0
    ensures (2 * RoundedQuotient(m) - 1) * m <= 200 < (2 * RoundedQuotient(m) + 1) * m
  {
    var q := RoundedQuotient(m);
    var rest := (200 + m) % (2 * m);
    assert 200 + m == q * (2 * m) + rest && 0 <= rest < 2 * m;
    assert (2 * q - 1) * m == q * (2 * m) - m;
    assert (2 * q + 1) * m == q * (2 * m) + m;
  }

  /** For m < 0 the quotient is still the floor of 100/m + 1/2; the inequalities flip with the sign. */
  lemma RoundedQuotientNegative(m: int)
    requires m < 0
    ensures (2 * RoundedQuotient(m) + 1) * m < 200 <= (2 * RoundedQuotient(m) - 1) * m
  {
    var q := RoundedQuotient(m);
    var d := -2 * m;
    var rest := (-(200 + m)) % d;
    assert -(200 + m) == q * d + rest && 0 <= rest < d;
    assert (2 * q + 1) * m == -(q * d) + m;
    assert (2 * q - 1) * m == -(q * d) - m;
  }

  // ---------------------------------------------------------------------------
  // The rarity term

  lemma {:induction false} RarityExamples()
    ensures Rarity(0) == 30 && Rarity(9) == 10 && Rarity(99) == 1 && Rarity(199) == 1 && Rarity(200) == 0
  {
    assert RoundedQuotient(1) == 100;
    assert RoundedQuotient(10) == 10;
    assert RoundedQuotient(100) == 1;
    assert RoundedQuotient(200) == 1;
    assert RoundedQuotient(201) == 0;
  }

  /** For a non-negative count the term lies in [0, 30]. */
  lemma RarityBounds(downloads: int)
    requires downloads >= 0
    ensures 0 <= Rarity(downloads) <= RarityCap
  {
  }

  /** The term is at its cap of 30 exactly for counts up to 2 (100/3 rounds to 33, 100/4 to 25). */
  lemma RarityCapped(downloads: int)
    requires downloads >= 0
    ensures Rarity(downloads) == RarityCap <==> downloads <= 2
  {
    var m := downloads + 1;
    RoundedQuotientPositive(m);
  }

  /** The term vanishes exactly from 200 downloads on (100/201 rounds to 0, 100/200 to 1). */
  lemma RarityZero(downloads: int)
    requires downloads >= 0
    ensures Rarity(downloads) == 0 <==> downloads >= 200
  {
    var m := downloads + 1;
    RoundedQuotientPositive(m);
  }

  /** More downloads never raise the term. */
  lemma RarityMonotone(d1: int, d2: int)
    requires -1 <= d1 <= d2
    ensures Rarity(d2) <= Rarity(d1)
  {
    if d1 >= 0 {
      var m1, m2 := d1 + 1, d2 + 1;
      QuotientMonotone(m1, m2);
    }
  }

  lemma QuotientMonotone(m1: int, m2: int)
    requires 0 < m1 <= m2
    ensures RoundedQuotient(m2) <= RoundedQuotient(m1)
  {
    var q1, q2 := RoundedQuotient(m1), RoundedQuotient(m2);
    RoundedQuotientPositive(m1);
    RoundedQuotientPositive(m2);
    // q2 - 1/2 <= 100/m2 <= 100/m1 < q1 + 1/2
    var a := 2 * q1 + 1;
    assert a > 0;
    MultiplyBoth(m1, m2, a);
    assert (2 * q2 - 1) * m2 < a * m2;
    MultiplyCancel(2 * q2 - 1, a, m2);
  }

  lemma MultiplyBoth(a: int, b: int, c: int)
    requires a <= b && c >= 0
    ensures c * a <= c * b
  {
  }

  lemma MultiplyCancel(a: int, b: int, c: int)
    requires c > 0 && a * c < b * c
    ensures a < b
  {
    if a >= b {
      MultiplyBoth(b, a, c);
    }
  }

  // ---------------------------------------------------------------------------
  // The whole score

  /** For a record whose download count is absent or non-negative, the index lies in [0, 100]. */
  lemma LostnessBounds(item: ArchiveItem)
    requires item.downloads.None? || item.downloads.value >= 0
    ensures 0 <= LostnessIndex(item) <= 100
  {
    RarityBounds(DownloadsOrZero(item));
  }

  /** The index is 100 exactly when creator, subject and language are all missing and there are at most 2 downloads. */
  lemma LostnessMaximal(item: ArchiveItem)
    requires item.downloads.None? || item.downloads.value >= 0
    ensures LostnessIndex(item) == 100 <==>
              MultiMissing(item.creator) && MultiMissing(item.subject) && LanguageMissing(item.language)
              && DownloadsOrZero(item) <= 2
  {
    RarityBounds(DownloadsOrZero(item));
    RarityCapped(DownloadsOrZero(item));
  }

  /** A record with no creator, subject, language or downloads scores the full 100. */
  lemma BareRecordScoresFull(identifier: string, title: string)
    ensures LostnessIndex(ArchiveItem(identifier, title, None, Absent, None, None, None, Absent, None, Absent, None)) == 100
  {
    assert RoundedQuotient(1) == 100;
  }

  /** A non-empty creator lowers the index by exactly 30 against a missing one; one empty string or an empty list count as missing. */
  lemma CreatorPenaltyExact(item: ArchiveItem, name: string, names: seq<string>)
    requires |name| > 0 && |names| > 0
    ensures LostnessIndex(item.(creator := Absent)) == LostnessIndex(item.(creator := One(name))) + CreatorPenalty
    ensures LostnessIndex(item.(creator := Absent)) == LostnessIndex(item.(creator := Many(names))) + CreatorPenalty
    ensures LostnessIndex(item.(creator := One(""))) == LostnessIndex(item.(creator := Absent))
    ensures LostnessIndex(item.(creator := Many([]))) == LostnessIndex(item.(creator := Absent))
  {
  }

  /** A non-empty subject lowers the index by exactly 25; an empty string or an empty list count as missing. */
  lemma SubjectPenaltyExact(item: ArchiveItem, name: string, names: seq<string>)
    requires |name| > 0 && |names| > 0
    ensures LostnessIndex(item.(subject := Absent)) == LostnessIndex(item.(subject := One(name))) + SubjectPenalty
    ensures LostnessIndex(item.(subject := Absent)) == LostnessIndex(item.(subject := Many(names))) + SubjectPenalty
    ensures LostnessIndex(item.(subject := One(""))) == LostnessIndex(item.(subject := Absent))
    ensures LostnessIndex(item.(subject := Many([]))) == LostnessIndex(item.(subject := Absent))
  {
  }

  /** A non-empty language lowers the index by exactly 15; the empty string is penalised like an absent language. */
  lemma LanguagePenaltyExact(item: ArchiveItem, language: string)
    requires |language| > 0
    ensures LostnessIndex(item.(language := None)) == LostnessIndex(item.(language := Some(language))) + LanguagePenalty
    ensures LostnessIndex(item.(language := Some(""))) == LostnessIndex(item.(language := None))
  {
  }

  /** The index never reads the field it is stored in, nor the identifying or descriptive fields. */
  lemma LostnessIgnoresOtherFields(item: ArchiveItem, other: ArchiveItem)
    requires item.creator == other.creator && item.subject == other.subject
    requires item.language == other.language && item.downloads == other.downloads
    ensures LostnessIndex(item) == LostnessIndex(other)
  {
  }

  // ---------------------------------------------------------------------------
  // Attaching the index to a search answer

  /** `docs.map(item => ({...item, lostnessIndex: calculateLostnessIndex(item)}))`. */
  function AttachLostness(docs: seq<ArchiveItem>): (scored: seq<ArchiveItem>)
  {
    if |docs| == 0 then [] else [docs[0].(lostnessIndex := Some(LostnessIndex(docs[0])))] + AttachLostness(docs[1..])
  }

  /** Every document keeps its place and all its fields, and gains its own index. */
  lemma {:induction false} AttachLostnessSpec(docs: seq<ArchiveItem>)
    ensures |AttachLostness(docs)| == |docs|
    ensures forall i :: 0 <= i < |docs| ==>
              AttachLostness(docs)[i].(lostnessIndex := docs[i].lostnessIndex) == docs[i]
              && AttachLostness(docs)[i].lostnessIndex == Some(LostnessIndex(docs[i]))
  {
    if |docs| > 0 {
      AttachLostnessSpec(docs[1..]);
      assert forall i :: 0 < i < |docs| ==> AttachLostness(docs)[i] == AttachLostness(docs[1..])[i - 1];
    }
  }

  /** Scoring an already scored answer changes nothing. */
  lemma {:induction false} AttachLostnessIdempotent(docs: seq<ArchiveItem>)
    ensures AttachLostness(AttachLostness(docs)) == AttachLostness(docs)
  {
    if |docs| > 0 {
      AttachLostnessIdempotent(docs[1..]);
      var scored := AttachLostness(docs);
      assert scored[1..] == AttachLostness(docs[1..]);
    }
  }
}
