/** One wiki file per corpus row: file stems from titles, and the allocator that keeps their names apart. */
module WikiFileNames {
  import opened Sequences

  // ---------------------------------------------------------------- stems

  predicate IsLowerAlnum(c: char) {
    'a' <= c <= 'z' || '0' <= c <= '9'
  }

  predicate IsAsciiAlnum(c: char) {
    IsLowerAlnum(c) || 'A' <= c <= 'Z'
  }

  function Lower(c: char): char {
    if 'A' <= c <= 'Z' then (c as int + 32) as char else c
  }

  function SafeChars(value: string): string {
    seq(|value|, i requires 0 <= i < |value| => if IsAsciiAlnum(value[i]) then Lower(value[i]) else '-')
  }

  /** value.split("-") */
  function Split(s: string): (parts: seq<string>)
    ensures |parts| > 0
  {
    if s == "" then [""]
    else
      var rest := Split(s[1..]);
      if s[0] == '-' then [""] + rest else [[s[0]] + rest[0]] + rest[1..]
  }

  function NonEmpty(parts: seq<string>): seq<string> {
    if parts == [] then [] else (if parts[0] == "" then [] else [parts[0]]) + NonEmpty(parts[1..])
  }

  /** "-".join(parts) */
  function Join(parts: seq<string>): string {
    if parts == [] then "" else if |parts| == 1 then parts[0] else parts[0] + "-" + Join(parts[1..])
  }

  function SafeFileStem(value: string): string {
    Join(NonEmpty(Split(SafeChars(value))))
  }

  /** Lower-case letters and digits with single dashes between them. */
  ghost predicate IsSlug(s: string) {
    && (forall i :: 0 <= i < |s| ==> IsLowerAlnum(s[i]) || s[i] == '-')
    && (s != "" ==> s[0] != '-')
    && DashesInside(s)
  }

  /** Every dash is followed by another character. */
  ghost predicate DashesInside(s: string) {
    forall i :: 0 <= i < |s| && s[i] == '-' ==> i + 1 < |s| && s[i + 1] != '-'
  }

  ghost predicate PlainParts(parts: seq<string>) {
    forall i :: 0 <= i < |parts| ==> parts[i] != "" && forall j :: 0 <= j < |parts[i]| ==> IsLowerAlnum(parts[i][j])
  }

  lemma {:induction false} JoinSplit(s: string)
    ensures Join(Split(s)) == s
    decreases |s|
  {
    if s != "" {
      JoinSplit(s[1..]);
      var rest := Split(s[1..]);
      if s[0] == '-' {
        assert ([""] + rest)[1..] == rest;
        assert s == "" + "-" + s[1..];
      } else {
        assert s == [s[0]] + s[1..];
        assert ([[s[0]] + rest[0]] + rest[1..])[1..] == rest[1..];
        if |rest| > 1 {
          assert [s[0]] + (rest[0] + "-" + Join(rest[1..])) == [s[0]] + rest[0] + "-" + Join(rest[1..]);
        }
      }
    }
  }

  /** Which parts are empty can be read off the dashes. */
  lemma {:induction false} EmptyParts(s: string)
    ensures Split(s)[0] == "" <==> s == "" || s[0] == '-'
    ensures (forall i :: 1 <= i < |Split(s)| ==> Split(s)[i] != "") <==> DashesInside(s)
    decreases |s|
  {
    if s != "" {
      var t := s[1..];
      EmptyParts(t);
      assert s == [s[0]] + t;
      var rest, parts := Split(t), Split(s);
      if s[0] == '-' {
        assert parts == [""] + rest;
        assert (forall i :: 1 <= i < |parts| ==> parts[i] != "") <==> rest[0] != "" && (forall i :: 1 <= i < |rest| ==> rest[i] != "") by {
          ShiftedParts(parts, rest);
        }
      } else {
        assert forall i :: 1 <= i < |parts| ==> parts[i] == rest[i];
        assert forall i :: 1 <= i < |rest| ==> parts[i] == rest[i];
      }
    }
  }

  lemma ShiftedParts(parts: seq<string>, rest: seq<string>)
    requires parts == [""] + rest && rest != []
    ensures (forall i :: 1 <= i < |parts| ==> parts[i] != "") <==> rest[0] != "" && forall i :: 1 <= i < |rest| ==> rest[i] != ""
  {
    if forall i :: 1 <= i < |parts| ==> parts[i] != "" {
      forall i | 0 <= i < |rest| ensures rest[i] != "" {
        assert parts[i + 1] == rest[i];
      }
    }
  }

  lemma {:induction false} KeepAll(parts: seq<string>)
    requires forall i :: 0 <= i < |parts| ==> parts[i] != ""
    ensures NonEmpty(parts) == parts
    decreases |parts|
  {
    if parts != [] {
      KeepAll(parts[1..]);
    }
  }

  lemma {:induction false} PartsArePlain(s: string)
    requires forall i :: 0 <= i < |s| ==> IsLowerAlnum(s[i]) || s[i] == '-'
    ensures forall k, j :: 0 <= k < |Split(s)| && 0 <= j < |Split(s)[k]| ==> IsLowerAlnum(Split(s)[k][j])
    decreases |s|
  {
    if s != "" {
      PartsArePlain(s[1..]);
    }
  }

  lemma {:induction false} KeptPartsArePlain(parts: seq<string>)
    requires forall k, j :: 0 <= k < |parts| && 0 <= j < |parts[k]| ==> IsLowerAlnum(parts[k][j])
    ensures PlainParts(NonEmpty(parts))
    decreases |parts|
  {
    if parts != [] {
      assert forall k :: 0 <= k < |parts[1..]| ==> parts[1..][k] == parts[k + 1];
      KeptPartsArePlain(parts[1..]);
    }
  }

  lemma {:induction false} JoinedSlug(parts: seq<string>)
    requires PlainParts(parts)
    ensures IsSlug(Join(parts)) && (Join(parts) == "" <==> parts == [])
    decreases |parts|
  {
    if |parts| > 1 {
      var rest := Join(parts[1..]);
      JoinedSlug(parts[1..]);
      var s := parts[0] + "-" + rest;
      forall i | 0 <= i < |s| ensures (IsLowerAlnum(s[i]) || s[i] == '-') && (s[i] == '-' ==> i + 1 < |s| && s[i + 1] != '-') {
        if i > |parts[0]| {
          assert s[i] == rest[i - |parts[0]| - 1];
        } else if i == |parts[0]| {
          assert s[i + 1] == rest[0];
        } else {
          assert s[i] == parts[0][i];
        }
      }
    }
  }

  /** Every stem is a slug, and slugs are exactly the strings the function leaves alone. So it is idempotent. */
  lemma StemIsSlug(value: string)
    ensures IsSlug(SafeFileStem(value))
    ensures IsSlug(value) <==> SafeFileStem(value) == value
    ensures SafeFileStem(SafeFileStem(value)) == SafeFileStem(value)
  {
    StemOf(value);
    StemOf(SafeFileStem(value));
    if IsSlug(value) {
      SlugKept(value);
    }
    SlugKept(SafeFileStem(value));
  }

  lemma StemOf(value: string)
    ensures IsSlug(SafeFileStem(value))
  {
    hide IsSlug, Join, Split, NonEmpty;
    PartsArePlain(SafeChars(value));
    KeptPartsArePlain(Split(SafeChars(value)));
    JoinedSlug(NonEmpty(Split(SafeChars(value))));
  }

  lemma SlugKept(s: string)
    requires IsSlug(s)
    ensures SafeFileStem(s) == s
  {
    hide Join, Split, NonEmpty;
    assert SafeChars(s) == s;
    EmptyParts(s);
    JoinSplit(s);
    if s == "" {
      NothingKept();
    } else {
      KeepAll(Split(s));
    }
  }

  // ---------------------------------------------------------------- stems, character by character

  /** The parts with one more character in the last one. */
  function Lengthened(parts: seq<string>, c: char): seq<string>
    requires parts != []
  {
    parts[..|parts| - 1] + [parts[|parts| - 1] + [c]]
  }

  lemma LengthenedBehind(head: string, parts: seq<string>, c: char)
    requires parts != []
    ensures Lengthened([head] + parts, c) == [head] + Lengthened(parts, c)
  {
    var m := |parts| - 1;
    assert ([head] + parts)[..m + 1] == [head] + parts[..m];
  }

  lemma LengthenedHead(x: char, parts: seq<string>, c: char)
    requires parts != []
    ensures var longer := Lengthened(parts, c);
            Lengthened([[x] + parts[0]] + parts[1..], c) == [[x] + longer[0]] + longer[1..]
  {
    if |parts| > 1 {
      assert parts == [parts[0]] + parts[1..];
      LengthenedBehind(parts[0], parts[1..], c);
      LengthenedBehind([x] + parts[0], parts[1..], c);
    } else {
      assert [x] + (parts[0] + [c]) == [x] + parts[0] + [c];
    }
  }

  function Lead(x: char, rest: seq<string>): seq<string>
    requires rest != []
  {
    if x == '-' then [""] + rest else [[x] + rest[0]] + rest[1..]
  }

  /** s may be anything but empty: what comes after its first character decides the parts behind the first. */
  lemma SplitLead(s: string)
    requires s != ""
    ensures Split(s) == Lead(s[0], Split(s[1..]))
  {
  }

  lemma LeadKeepsLast(x: char, rest: seq<string>, c: char)
    requires rest != []
    ensures Lead(x, Lengthened(rest, c)) == Lengthened(Lead(x, rest), c)
    ensures Lead(x, rest + [""]) == Lead(x, rest) + [""]
  {
    hide Lengthened;
    if x == '-' {
      LengthenedBehind("", rest, c);
    } else {
      LengthenedHead(x, rest, c);
      assert (rest + [""])[1..] == rest[1..] + [""];
    }
  }

  lemma LastOfLead(x: char, rest: seq<string>)
    requires rest != []
    ensures var parts := Lead(x, rest);
            && |parts| == |rest| + (if x == '-' then 1 else 0)
            && parts[|parts| - 1] == if x == '-' || |rest| > 1 then rest[|rest| - 1] else [x] + rest[0]
  {
  }

  /** Another character goes to the last part, unless it is a dash. */
  lemma {:induction false} SplitOneMore(s: string, c: char)
    ensures Split(s + [c]) == if c == '-' then Split(s) + [""] else Lengthened(Split(s), c)
    decreases |s|
  {
    hide Lengthened, Lead, Split;
    if s == "" {
      assert s + [c] == [c];
      FirstPart(c);
    } else {
      SplitOneMore(s[1..], c);
      assert (s + [c])[0] == s[0] && (s + [c])[1..] == s[1..] + [c];
      SplitLead(s);
      SplitLead(s + [c]);
      LeadKeepsLast(s[0], Split(s[1..]), c);
    }
  }

  /** The last part is empty when nothing has been read, or a dash has been read last. */
  lemma {:induction false} LastPartEmpty(s: string)
    ensures Split(s)[|Split(s)| - 1] == "" <==> s == "" || s[|s| - 1] == '-'
    ensures s != "" && s[|s| - 1] == '-' ==> |Split(s)| > 1
    decreases |s|
  {
    hide Lead, Split;
    EmptySplit(s);
    if s != "" {
      var t := s[1..];
      LastPartEmpty(t);
      EmptySplit(t);
      assert t != "" ==> t[|t| - 1] == s[|s| - 1];
      SplitLead(s);
      LastOfLead(s[0], Split(t));
    }
  }

  lemma EmptySplit(s: string)
    ensures s == "" ==> Split(s) == [""]
  {
  }

  lemma FirstPart(c: char)
    ensures Split("") == [""] && Split([c]) == if c == '-' then [""] + [""] else Lengthened([""], c)
  {
    assert [c][1..] == "";
    assert [c] + "" == [c] == "" + [c];
  }

  lemma {:induction false} NonEmptyAppend(a: seq<string>, b: seq<string>)
    ensures NonEmpty(a + b) == NonEmpty(a) + NonEmpty(b)
    decreases |a|
  {
    if a == [] {
      assert a + b == b;
    } else {
      assert (a + b)[1..] == a[1..] + b;
      NonEmptyAppend(a[1..], b);
    }
  }

  lemma {:induction false} JoinAppend(a: seq<string>, x: string)
    ensures Join(a + [x]) == if a == [] then x else Join(a) + "-" + x
    decreases |a|
  {
    if a == [] {
      assert a + [x] == [x];
    } else {
      assert (a + [x])[1..] == a[1..] + [x];
      JoinAppend(a[1..], x);
      if |a| > 1 {
        assert a[0] + "-" + (Join(a[1..]) + "-" + x) == (a[0] + "-" + Join(a[1..])) + "-" + x;
      }
    }
  }

  lemma {:induction false} KeptNotEmpty(parts: seq<string>)
    ensures Join(NonEmpty(parts)) == "" <==> NonEmpty(parts) == []
    decreases |parts|
  {
    if parts != [] {
      KeptNotEmpty(parts[1..]);
    }
  }

  lemma OnePart(part: string)
    ensures NonEmpty([part]) == if part == "" then [] else [part]
  {
    assert [part][1..] == [];
  }

  /** The parts that are not empty, with dashes between them. */
  function Kept(parts: seq<string>): string {
    Join(NonEmpty(parts))
  }

  lemma KeptLast(parts: seq<string>, last: string)
    ensures Kept(parts + [last]) == if last == "" then Kept(parts) else if Kept(parts) == "" then last else Kept(parts) + "-" + last
  {
    hide Join, NonEmpty;
    NonEmptyAppend(parts, [last]);
    OnePart(last);
    KeptNotEmpty(parts);
    JoinAppend(NonEmpty(parts), last);
    assert NonEmpty(parts) + [] == NonEmpty(parts);
  }

  /** One more character in the last part. */
  lemma KeptLonger(parts: seq<string>, last: string, c: char)
    ensures var stem := Kept(parts + [last]);
            Kept(parts + [last + [c]]) == if last == "" && stem != "" then stem + "-" + [c] else stem + [c]
  {
    hide Kept;
    var stem := Kept(parts);
    KeptLast(parts, last);
    KeptLast(parts, last + [c]);
    if last == "" {
      assert last + [c] == [c];
    } else if stem != "" {
      assert stem + "-" + (last + [c]) == stem + "-" + last + [c];
    }
  }

  lemma LastPart(parts: seq<string>, c: char)
    requires parts != []
    ensures Kept(Lengthened(parts, c)) == if parts[|parts| - 1] == "" && Kept(parts) != "" then Kept(parts) + "-" + [c] else Kept(parts) + [c]
  {
    hide Kept;
    var before, last := parts[..|parts| - 1], parts[|parts| - 1];
    KeptLonger(before, last, c);
    assert parts == before + [last];
  }

  /** What the next character of the filtered string adds to the joined parts. */
  lemma KeptOneMore(s: string, c: char)
    ensures var stem := Kept(Split(s));
            Kept(Split(s + [c]))
            == if c == '-' then stem
               else if s != "" && s[|s| - 1] == '-' && stem != "" then stem + "-" + [c] else stem + [c]
  {
    hide Split, Kept, Lengthened;
    SplitOneMore(s, c);
    LastPartEmpty(s);
    EmptyStem(s);
    LastPart(Split(s), c);
    KeptLast(Split(s), "");
  }

  lemma EmptyStem(s: string)
    ensures s == "" ==> Kept(Split(s)) == ""
  {
    hide Split, Join, NonEmpty;
    NothingKept();
  }

  /**
   The stem, character by character: it starts empty; letters and digits are added in lower case, behind a dash if
   something else came in between; nothing else is added.
   */
  lemma StemOneMore(value: string, c: char)
    ensures SafeFileStem("") == ""
    ensures var stem := SafeFileStem(value);
            var lower := if 'A' <= c <= 'Z' then (c as int - 'A' as int + 'a' as int) as char else c;
            SafeFileStem(value + [c])
            == if !('a' <= c <= 'z' || 'A' <= c <= 'Z' || '0' <= c <= '9') then stem
               else if stem != "" && !IsAsciiAlnum(value[|value| - 1]) then stem + "-" + [lower] else stem + [lower]
  {
    hide Split, Join, NonEmpty;
    EmptyStem(SafeChars(""));
    var d := if IsAsciiAlnum(c) then Lower(c) else '-';
    assert SafeChars(value + [c]) == SafeChars(value) + [d];
    KeptOneMore(SafeChars(value), d);
    if value == "" {
      assert SafeChars(value) == "";
    }
  }

  lemma NothingKept()
    ensures Join(NonEmpty(Split(""))) == ""
  {
  }

  // ---------------------------------------------------------------- the stem of a row

  function StripLeft(s: string): string {
    if s != "" && s[0] == '-' then StripLeft(s[1..]) else s
  }

  function StripRight(s: string): string {
    if s != "" && s[|s| - 1] == '-' then StripRight(s[..|s| - 1]) else s
  }

  function Or(a: string, b: string): string {
    if a != "" then a else b
  }

  function WholeStem(corpusId: string, title: string): string {
    Or(Or(SafeFileStem(title), SafeFileStem(corpusId)), "document")
  }

  function Stem(corpusId: string, title: string): string {
    Or(StripRight(StripLeft(Take(WholeStem(corpusId, title), 80))), "document")
  }

  /**
   The title decides the stem if it has a slug, else the corpus id if that has one, else it is "document". A slug of at
   most 80 characters is the stem; a longer one is cut after 80, or after 79 where a dash would end it.
   */
  lemma StemChoice(corpusId: string, title: string)
    ensures var slug := if SafeFileStem(title) != "" then SafeFileStem(title)
                        else if SafeFileStem(corpusId) != "" then SafeFileStem(corpusId) else "document";
            Stem(corpusId, title)
            == if |slug| <= 80 then slug else if slug[79] == '-' then slug[..79] else slug[..80]
  {
    hide SafeFileStem;
    StemIsSlug(title);
    StemIsSlug(corpusId);
    CutSlug(WholeStem(corpusId, title), 80);
  }

  /** The stem is a slug of 1 to 80 characters. The fallback after cutting is never needed. */
  lemma StemLaws(corpusId: string, title: string)
    ensures IsSlug(Stem(corpusId, title)) && 1 <= |Stem(corpusId, title)| <= 80
    ensures StripRight(StripLeft(Take(WholeStem(corpusId, title), 80))) != ""
  {
    hide SafeFileStem;
    StemIsSlug(title);
    StemIsSlug(corpusId);
    CutSlug(WholeStem(corpusId, title), 80);
  }

  lemma CutSlug(s: string, n: nat)
    requires IsSlug(s) && s != "" && n > 0
    ensures var cut := StripRight(StripLeft(Take(s, n)));
            && IsSlug(cut) && 1 <= |cut| <= n
            && cut == if |s| <= n then s else if s[n - 1] == '-' then s[..n - 1] else s[..n]
  {
    var p := Take(s, n);
    assert p[0] == s[0];
    assert StripLeft(p) == p;
    var m := |p| - 1;
    if p[m] == '-' {
      assert m > 0 && s[m - 1] != '-';
      assert StripRight(p[..m]) == p[..m];
      assert StripRight(p) == p[..m];
    } else {
      assert StripRight(p) == p;
    }
  }

  // ---------------------------------------------------------------- names

  /** str.casefold, on the ASCII characters that occur in file names. */
  function Casefold(s: string): string {
    seq(|s|, i requires 0 <= i < |s| => Lower(s[i]))
  }

  function Digit(d: nat): char
    requires d < 10
  {
    ('0' as int + d) as char
  }

  function Decimal(n: nat): string {
    if n < 10 then [Digit(n)] else Decimal(n / 10) + [Digit(n % 10)]
  }

  function ValueOf(s: string): int {
    if s == "" then 0 else 10 * ValueOf(s[..|s| - 1]) + (s[|s| - 1] as int - '0' as int)
  }

  lemma {:induction false} DecimalRoundTrip(n: nat)
    ensures ValueOf(Decimal(n)) == n && Decimal(n) != ""
    ensures forall i :: 0 <= i < |Decimal(n)| ==> '0' <= Decimal(n)[i] <= '9'
    ensures n > 0 ==> Decimal(n)[0] != '0'
    decreases n
  {
    if n < 10 {
      assert [Digit(n)][..0] == "";
    } else {
      DecimalRoundTrip(n / 10);
      assert Decimal(n)[..|Decimal(n)| - 1] == Decimal(n / 10);
    }
  }

  function PlainName(stem: string): string {
    stem + ".md"
  }

  /** The k-th name tried after the plain one. */
  function Candidate(stem: string, digest: string, k: nat): string {
    if k == 0 then stem + "-" + digest + ".md" else stem + "-" + digest + "-" + Decimal(k) + ".md"
  }

  function Middle(k: nat): string {
    if k == 0 then "" else "-" + Decimal(k)
  }

  /** No two candidates are equal, and none is the plain name. */
  lemma CandidatesDiffer(stem: string, digest: string, i: nat, j: nat)
    ensures Candidate(stem, digest, i) == Candidate(stem, digest, j) ==> i == j
    ensures Candidate(stem, digest, i) != PlainName(stem)
  {
    hide Decimal;
    if Candidate(stem, digest, i) == Candidate(stem, digest, j) {
      var prefix := stem + "-" + digest;
      assert Candidate(stem, digest, i) == prefix + Middle(i) + ".md";
      assert Candidate(stem, digest, j) == prefix + Middle(j) + ".md";
      MiddleRecovered(prefix, Middle(i), Middle(j), ".md");
      DecimalRoundTrip(i);
      DecimalRoundTrip(j);
      if i > 0 && j > 0 {
        assert Middle(i)[1..] == Decimal(i) && Middle(j)[1..] == Decimal(j);
      }
    }
  }

  lemma MiddleRecovered(prefix: string, a: string, b: string, suffix: string)
    requires prefix + a + suffix == prefix + b + suffix
    ensures a == b
  {
    assert a == (prefix + a + suffix)[|prefix|..|prefix| + |a|];
    assert b == (prefix + b + suffix)[|prefix|..|prefix| + |b|];
  }

  /** What a file name may look like: lower-case letters, digits, dashes and the dot of the extension. */
  ghost predicate IsLowerName(s: string) {
    forall i :: 0 <= i < |s| ==> IsLowerAlnum(s[i]) || s[i] == '-' || s[i] == '.'
  }

  /** Twelve hexadecimal digits. */
  ghost predicate IsDigest(s: string) {
    |s| == 12 && forall i :: 0 <= i < |s| ==> '0' <= s[i] <= '9' || 'a' <= s[i] <= 'f'
  }

  lemma NamesAreLower(stem: string, digest: string, k: nat)
    requires IsSlug(stem) && IsDigest(digest)
    ensures IsLowerName(PlainName(stem)) && IsLowerName(Candidate(stem, digest, k))
    ensures Casefold(PlainName(stem)) == PlainName(stem) && Casefold(Candidate(stem, digest, k)) == Candidate(stem, digest, k)
  {
    hide Decimal, DashesInside;
    if k > 0 {
      DecimalRoundTrip(k);
    }
  }

  // ---------------------------------------------------------------- the allocator

  /** The plain name and the first k candidates: all different, all in use. */
  ghost predicate Tried(stem: string, digest: string, used: set<string>, tried: set<string>, k: nat) {
    && |tried| == k + 1 && tried <= used
    && (forall x :: x in tried ==> x == PlainName(stem) || exists j: nat :: j < k && x == Candidate(stem, digest, j))
    && (forall j: nat :: j < k ==> Candidate(stem, digest, j) in used)
  }

  /** One more name in use means one more name tried; the names in use bound the tries. */
  lemma TriedStep(stem: string, digest: string, used: set<string>, tried: set<string>, k: nat)
    requires Tried(stem, digest, used, tried, k) && Candidate(stem, digest, k) in used
    ensures Tried(stem, digest, used, tried + {Candidate(stem, digest, k)}, k + 1)
    ensures k + 1 < |used|
  {
    hide Candidate, PlainName;
    forall x | x in tried ensures x != Candidate(stem, digest, k) {
      CandidatesDiffer(stem, digest, k, 0);
      if j: nat :| j < k && x == Candidate(stem, digest, j) {
        CandidatesDiffer(stem, digest, j, k);
      }
    }
    SubsetSize(tried + {Candidate(stem, digest, k)}, used);
  }

  /** The plain name if it is free, else the first free candidate. At most |used| + 1 names are tried. */
  ghost predicate IsFirstFree(stem: string, digest: string, used: set<string>, name: string) {
    if PlainName(stem) !in used then name == PlainName(stem)
    else name !in used && exists k: nat :: k < |used| && name == Candidate(stem, digest, k) && forall j: nat :: j < k ==> Candidate(stem, digest, j) in used
  }

  /** The first names that are tried, in turn. */
  lemma NamesInTurn(stem: string, digest: string, used: set<string>, name: string)
    requires IsFirstFree(stem, digest, used, name)
    ensures var plain, hashed, first := stem + ".md", stem + "-" + digest + ".md", stem + "-" + digest + "-1.md";
            && (plain !in used ==> name == plain)
            && (plain in used && hashed !in used ==> name == hashed)
            && (plain in used && hashed in used && first !in used ==> name == first)
  {
    hide Decimal;
    FirstSuffix();
    assert Candidate(stem, digest, 1) == stem + "-" + digest + "-1.md" by {
      assert stem + "-" + digest + "-" + "1" + ".md" == stem + "-" + digest + "-1.md";
    }
    if PlainName(stem) in used {
      var k: nat :| k < |used| && name == Candidate(stem, digest, k) && forall j: nat :: j < k ==> Candidate(stem, digest, j) in used;
      assert k > 0 ==> Candidate(stem, digest, 0) in used;
      assert k > 1 ==> Candidate(stem, digest, 1) in used;
    }
  }

  lemma FirstSuffix()
    ensures Decimal(1) == "1"
  {
  }

  method WikiFileName(corpusId: string, title: string, used: set<string>, digest: string) returns (name: string)
    requires IsDigest(digest)
    ensures Casefold(name) !in used && Casefold(name) == name && IsLowerName(name)
    ensures IsFirstFree(Stem(corpusId, title), digest, used, name)
  {
    hide *;
    var stem := Stem(corpusId, title);
    StemLaws(corpusId, title);
    var candidate := PlainName(stem);
    NamesAreLower(stem, digest, 0);
    PlainTried(stem, digest, used);
    if Casefold(candidate) !in used {
      return candidate;
    }
    ghost var tried := {candidate};
    candidate := Candidate(stem, digest, 0);
    var suffix := 1;
    while Casefold(candidate) in used
      invariant suffix >= 1 && candidate == Candidate(stem, digest, suffix - 1)
      invariant Tried(stem, digest, used, tried, suffix - 1)
      invariant Casefold(candidate) == candidate && IsLowerName(candidate)
      decreases |used| - suffix
    {
      TriedStep(stem, digest, used, tried, suffix - 1);
      tried := tried + {candidate};
      NamesAreLower(stem, digest, suffix);
      candidate := Candidate(stem, digest, suffix);
      suffix := suffix + 1;
    }
    TriedBound(stem, digest, used, tried, suffix - 1);
    name := candidate;
  }

  lemma PlainTried(stem: string, digest: string, used: set<string>)
    ensures if PlainName(stem) in used then Tried(stem, digest, used, {PlainName(stem)}, 0) else IsFirstFree(stem, digest, used, PlainName(stem))
  {
  }

  lemma TriedBound(stem: string, digest: string, used: set<string>, tried: set<string>, k: nat)
    requires Tried(stem, digest, used, tried, k) && PlainName(stem) in used && Candidate(stem, digest, k) !in used
    ensures k < |used| && IsFirstFree(stem, digest, used, Candidate(stem, digest, k))
  {
    hide Candidate, PlainName;
    SubsetSize(tried, used);
  }

  datatype Row = Row(corpusId: string, title: string, text: string)

  function Folded(names: seq<string>): set<string> {
    set x | x in names :: Casefold(x)
  }

  /** Each row has the first free name, given the names of the rows before it, and all of them differ where case is ignored. */
  ghost predicate Allocated(rows: seq<Row>, digest: string -> string, names: seq<string>) {
    && |names| <= |rows|
    && (forall i :: 0 <= i < |names| ==>
          && Casefold(names[i]) == names[i]
          && IsFirstFree(Stem(rows[i].corpusId, rows[i].title), digest(rows[i].corpusId), Folded(names[..i]), names[i]))
    && (forall i, j :: 0 <= i < j < |names| ==> Casefold(names[i]) != Casefold(names[j]))
  }

  lemma AllocateOne(rows: seq<Row>, digest: string -> string, names: seq<string>, name: string)
    requires Allocated(rows, digest, names) && |names| < |rows|
    requires Casefold(name) !in Folded(names) && Casefold(name) == name
    requires var row := rows[|names|]; IsFirstFree(Stem(row.corpusId, row.title), digest(row.corpusId), Folded(names), name)
    ensures Allocated(rows, digest, names + [name])
    ensures Folded(names + [name]) == Folded(names) + {Casefold(name)}
  {
    hide Casefold, IsFirstFree, Stem, Folded;
    FoldedStep(names, name);
    assert forall i :: 0 <= i <= |names| ==> (names + [name])[..i] == names[..i];
    assert names[..|names|] == names;
  }

  lemma FoldedStep(names: seq<string>, name: string)
    ensures Folded(names + [name]) == Folded(names) + {Casefold(name)}
    ensures Casefold(name) !in Folded(names) ==> forall i :: 0 <= i < |names| ==> Casefold(names[i]) != Casefold(name)
  {
    hide Casefold;
    forall x | x in Folded(names) + {Casefold(name)} ensures x in Folded(names + [name]) {
      assert name in names + [name];
      if y :| y in names && Casefold(y) == x {
        assert y in names + [name];
      }
    }
  }

  lemma NoneAllocated(rows: seq<Row>, digest: string -> string)
    ensures Folded([]) == {} && Allocated(rows, digest, [])
  {
  }

  /** The wiki directory maps file names to the rows written there. Every row keeps a file of its own, even where case is ignored. */
  method WriteWikiDocuments(rows: seq<Row>, digest: string -> string, wikiDir: map<string, Row>)
    returns (names: seq<string>, files: map<string, Row>)
    requires forall id :: IsDigest(digest(id))
    ensures |names| == |rows| && Allocated(rows, digest, names)
    ensures forall i :: 0 <= i < |names| ==> names[i] in files && files[names[i]] == rows[i]
    ensures forall name :: name in files && name !in names ==> name in wikiDir && files[name] == wikiDir[name]
    ensures forall name :: name in wikiDir ==> name in files
  {
    hide IsDigest, IsLowerName, Stem, IsFirstFree, Folded, Allocated, Casefold;
    var used: set<string> := {};
    names, files := [], wikiDir;
    NoneAllocated(rows, digest);
    for n := 0 to |rows|
      invariant |names| == n && used == Folded(names) && Allocated(rows, digest, names)
      invariant forall i :: 0 <= i < n ==> names[i] in files && files[names[i]] == rows[i]
      invariant forall name :: name in files && name !in names ==> name in wikiDir && files[name] == wikiDir[name]
      invariant forall name :: name in wikiDir ==> name in files
    {
      var row := rows[n];
      var name := WikiFileName(row.corpusId, row.title, used, digest(row.corpusId));
      FoldedStep(names, name);
      AllocateOne(rows, digest, names, name);
      used := used + {Casefold(name)};
      names, files := names + [name], files[name := row];
    }
  }
}
