/** The display and storage helpers of `lib/utils/formatters.ts`: keyword
    lists, truncation, slugs, storage URLs and file-size units. */
module Formatters {
  import opened Wrappers
  import opened Text
  import opened Seqs

  // ---------------------------------------------------------------- keyword lists

  function TrimAll(parts: seq<string>): (r: seq<string>)
    ensures |r| == |parts|
    ensures forall k :: 0 <= k < |r| ==> r[k] == Trim(parts[k])
  {
    seq(|parts|, k requires 0 <= k < |parts| => Trim(parts[k]))
  }

  predicate NonEmpty(s: string) {
    s != ""
  }

  /** `value.split(",").map((s) => s.trim()).filter(Boolean)`. */
  function ParseCommaSeparated(value: string): (r: seq<string>)
    ensures forall k :: 0 <= k < |r| ==> r[k] != "" && IsTrimmed(r[k])
    ensures IsSubseq(r, TrimAll(Split(value, ',')))
    ensures forall k :: 0 <= k < |r| ==> ',' !in r[k]
    ensures forall k :: 0 <= k < |Split(value, ',')| && !IsBlank(Split(value, ',')[k]) ==>
              Trim(Split(value, ',')[k]) in r
    ensures |r| == Count(TrimAll(Split(value, ',')), NonEmpty)
  {
    var pieces := Split(value, ',');
    var r := Filter(TrimAll(pieces), NonEmpty);
    TrimmedPiecesClean(pieces);
    NonBlankPiecesKept(pieces);
    CountIsFilterLength(TrimAll(pieces), NonEmpty);
    r
  }

  /** Every piece that is not blank survives, trimmed. */
  lemma NonBlankPiecesKept(pieces: seq<string>)
    ensures forall k :: 0 <= k < |pieces| && !IsBlank(pieces[k]) ==>
              Trim(pieces[k]) in Filter(TrimAll(pieces), NonEmpty)
  {
    var trimmed := TrimAll(pieces);
    forall k | 0 <= k < |pieces| && !IsBlank(pieces[k])
      ensures Trim(pieces[k]) in Filter(trimmed, NonEmpty)
    {
      assert trimmed[k] == Trim(pieces[k]);
      assert NonEmpty(trimmed[k]);
    }
  }

  /** The non-empty trimmed pieces of a comma split are clean keywords. */
  lemma TrimmedPiecesClean(pieces: seq<string>)
    requires forall k :: 0 <= k < |pieces| ==> ',' !in pieces[k]
    ensures forall k :: 0 <= k < |Filter(TrimAll(pieces), NonEmpty)| ==>
      IsCleanKeyword(Filter(TrimAll(pieces), NonEmpty)[k])
  {
    var trimmed := TrimAll(pieces);
    var r := Filter(trimmed, NonEmpty);
    forall k | 0 <= k < |r| ensures IsCleanKeyword(r[k]) {
      var j :| 0 <= j < |trimmed| && trimmed[j] == r[k];
      TrimNoNewChars(pieces[j], ',');
    }
  }

  /** Trimming does not introduce a character. */
  lemma TrimNoNewChars(s: string, c: char)
    requires c !in s
    ensures c !in Trim(s)
  {
    var t := TrimStart(s);
    assert forall i :: 0 <= i < |t| ==> t[i] == s[|s| - |t| + i];
    var r := TrimEnd(t);
    assert forall i :: 0 <= i < |r| ==> r[i] == t[i];
  }

  /** `keywords.join(", ")`. */
  function FormatKeywords(keywords: seq<string>): string {
    Join(keywords, ", ")
  }

  /** A keyword the round trip keeps. */
  predicate IsCleanKeyword(k: string) {
    k != "" && IsTrimmed(k) && ',' !in k
  }

  /** The pieces a comma split sees in a `", "` join: every keyword after
      the first carries the blank that followed its comma. */
  function Spaced(ks: seq<string>): (r: seq<string>)
    requires |ks| >= 1
    ensures |r| == |ks| && r[0] == ks[0]
    ensures forall k :: 1 <= k < |ks| ==> r[k] == " " + ks[k]
  {
    [ks[0]] + seq(|ks| - 1, k requires 0 <= k < |ks| - 1 => " " + ks[k + 1])
  }

  lemma JoinSpaced(ks: seq<string>)
    requires |ks| >= 1
    ensures Join(ks, ", ") == Join(Spaced(ks), ",")
  {
    if |ks| > 1 {
      SpacedIsBlankedTail(ks);
      JoinBlanked(ks[1..]);
      SpaceAfterComma(ks[0], Join(ks[1..], ", "));
    }
  }

  lemma SpacedIsBlankedTail(ks: seq<string>)
    requires |ks| > 1
    ensures Join(Spaced(ks), ",") == ks[0] + "," + Join(Blanked(ks[1..]), ",")
  {
    var sp := Spaced(ks);
    assert sp[1..] == Blanked(ks[1..]);
  }

  lemma SpaceAfterComma(a: string, j: string)
    ensures a + "," + (" " + j) == a + ", " + j
  {
  }

  /** Every keyword with a blank in front. */
  function Blanked(ks: seq<string>): (r: seq<string>)
    ensures |r| == |ks|
    ensures forall k :: 0 <= k < |ks| ==> r[k] == " " + ks[k]
  {
    seq(|ks|, k requires 0 <= k < |ks| => " " + ks[k])
  }

  /** Joining blank-prefixed keywords with `","` is a blank followed by
      their `", "` join. */
  lemma {:induction false} JoinBlanked(ks: seq<string>)
    requires |ks| >= 1
    ensures Join(Blanked(ks), ",") == " " + Join(ks, ", ")
    decreases |ks|
  {
    if |ks| > 1 {
      var bl := Blanked(ks);
      assert bl[1..] == Blanked(ks[1..]);
      JoinBlanked(ks[1..]);
      var j := Join(ks[1..], ", ");
      assert Join(bl, ",") == " " + ks[0] + "," + (" " + j);
      assert Join(ks, ", ") == ks[0] + ", " + j;
      assert " " + ks[0] + "," + (" " + j) == " " + (ks[0] + ", " + j);
    }
  }

  /** Formatting clean keywords and parsing the result gives them back. */
  lemma KeywordsRoundTrip(ks: seq<string>)
    requires forall k :: 0 <= k < |ks| ==> IsCleanKeyword(ks[k])
    ensures ParseCommaSeparated(FormatKeywords(ks)) == ks
  {
    if |ks| == 0 {
      assert Split("", ',') == [""];
      assert TrimAll([""]) == [""];
      assert Filter([""], NonEmpty) == [];
    } else {
      var sp := Spaced(ks);
      JoinSpaced(ks);
      SpacedNoComma(ks);
      SplitJoin(sp, ',');
      assert Split(FormatKeywords(ks), ',') == sp;
      TrimSpaced(ks);
      FilterAll(ks, NonEmpty);
    }
  }

  lemma SpacedNoComma(ks: seq<string>)
    requires |ks| >= 1
    requires forall k :: 0 <= k < |ks| ==> IsCleanKeyword(ks[k])
    ensures forall k :: 0 <= k < |Spaced(ks)| ==> ',' !in Spaced(ks)[k]
  {
    var sp := Spaced(ks);
    forall k | 0 <= k < |sp| ensures ',' !in sp[k] {
      if k > 0 {
        assert sp[k] == [' '] + ks[k];
      }
    }
  }

  lemma TrimSpaced(ks: seq<string>)
    requires |ks| >= 1
    requires forall k :: 0 <= k < |ks| ==> IsCleanKeyword(ks[k])
    ensures TrimAll(Spaced(ks)) == ks
  {
    var sp := Spaced(ks);
    var trimmed := TrimAll(sp);
    forall k | 0 <= k < |ks| ensures trimmed[k] == ks[k] {
      if k == 0 {
        TrimOfTrimmed(ks[0]);
      } else {
        TrimLeadingSpace(ks[k]);
      }
    }
  }

  // ---------------------------------------------------------------- truncate

  /** The suffix literal appended by `truncate`. The source file spells it
      as the three characters U+00E2 U+20AC U+00A6 — the UTF-8 bytes of a
      horizontal ellipsis read as Windows-1252 — and it is kept as written. */
  const TruncationSuffix: string := "\U{00E2}\U{20AC}\U{00A6}"

  /** `text.slice(0, n)`: a negative `n` counts from the end. */
  function SliceTo(text: string, n: int): (r: string)
    ensures StartsWith(text, r)
    ensures 0 <= n <= |text| ==> |r| == n
    ensures n > |text| ==> r == text
    ensures -|text| <= n < 0 ==> |r| == |text| + n
    ensures n < -|text| ==> r == ""
  {
    if n >= 0 then text[..if n <= |text| then n else |text|]
    else text[..if |text| + n >= 0 then |text| + n else 0]
  }

  /** `truncate(text, maxLength)`. */
  function Truncate(text: string, maxLength: int): (r: string)
    ensures |text| <= maxLength ==> r == text
    ensures |text| > maxLength ==>
              && |r| >= |TruncationSuffix|
              && r[|r| - |TruncationSuffix|..] == TruncationSuffix
              && var kept := r[..|r| - |TruncationSuffix|];
                 && StartsWith(text, kept)
                 && (maxLength >= 0 ==> |kept| <= maxLength)
                 && (|kept| > 0 ==> !IsSpace(kept[|kept| - 1]))
  {
    if |text| <= maxLength then text
    else
      var kept := TrimEnd(SliceTo(text, maxLength));
      var r := kept + TruncationSuffix;
      assert r[..|r| - |TruncationSuffix|] == kept;
      assert text[..|kept|] == kept;
      r
  }

  /** A longer text is cut after exactly `maxLength` characters before the
      trailing blanks go: the kept part is the prefix with its trailing
      whitespace removed, and nothing but whitespace is dropped from it. */
  lemma TruncateKeepsPrefix(text: string, maxLength: nat)
    requires |text| > maxLength
    ensures Truncate(text, maxLength) == TrimEnd(text[..maxLength]) + TruncationSuffix
    ensures IsBlank(text[|TrimEnd(text[..maxLength])|..maxLength])
  {
    var p := text[..maxLength];
    var k := TrimEnd(p);
    forall i | 0 <= i < |text[|k|..maxLength]| ensures IsSpace(text[|k|..maxLength][i]) {
      assert text[|k|..maxLength][i] == p[|k| + i];
    }
  }

  // ---------------------------------------------------------------- slugify

  predicate IsAlnum(c: char) {
    ('a' <= c <= 'z') || ('0' <= c <= '9')
  }

  /** Drops the leading characters outside `[a-z0-9]`. */
  function SkipNonAlnum(s: string): (r: string)
    ensures |r| <= |s| && r == s[|s| - |r|..]
    ensures |r| > 0 ==> IsAlnum(r[0])
    ensures forall i :: 0 <= i < |s| - |r| ==> !IsAlnum(s[i])
  {
    if |s| == 0 || IsAlnum(s[0]) then s
    else
      var r := SkipNonAlnum(s[1..]);
      assert s[1..][|s| - 1 - |r|..] == s[|s| - |r|..];
      assert forall i :: 1 <= i < |s| - |r| ==> s[i] == s[1..][i - 1];
      r
  }

  /** `replace(/[^a-z0-9]+/g, "-")`: every maximal run outside `[a-z0-9]`
      becomes one dash. */
  function Dashify(s: string): (r: string)
    ensures forall i :: 0 <= i < |r| ==> IsAlnum(r[i]) || r[i] == '-'
    ensures forall i :: 0 <= i < |r| - 1 ==> !(r[i] == '-' && r[i + 1] == '-')
    ensures (|r| > 0 && r[0] == '-') <==> (|s| > 0 && !IsAlnum(s[0]))
    ensures |r| == 0 <==> |s| == 0
    decreases |s|
  {
    if |s| == 0 then ""
    else if IsAlnum(s[0]) then [s[0]] + Dashify(s[1..])
    else "-" + Dashify(SkipNonAlnum(s[1..]))
  }

  /** `replace(/(^-|-$)/g, "")`: one leading and one trailing dash go. */
  function StripEndDashes(s: string): (r: string)
    ensures |s| > 0 && s[0] == '-' && |s| > 1 && s[|s| - 1] == '-' ==> r == s[1..|s| - 1]
    ensures |s| > 0 && s[0] == '-' && !(|s| > 1 && s[|s| - 1] == '-') ==> r == s[1..]
    ensures !(|s| > 0 && s[0] == '-') && |s| > 0 && s[|s| - 1] == '-' ==> r == s[..|s| - 1]
    ensures !(|s| > 0 && s[0] == '-') && !(|s| > 0 && s[|s| - 1] == '-') ==> r == s
  {
    var a := if |s| > 0 && s[0] == '-' then s[1..] else s;
    if |a| > 0 && a[|a| - 1] == '-' then a[..|a| - 1] else a
  }

  /** A well-formed slug: lower-case letters, digits and single inner dashes. */
  predicate IsSlug(t: string) {
    && (forall i :: 0 <= i < |t| ==> IsAlnum(t[i]) || t[i] == '-')
    && (forall i :: 0 <= i < |t| - 1 ==> !(t[i] == '-' && t[i + 1] == '-'))
    && (|t| > 0 ==> t[0] != '-' && t[|t| - 1] != '-')
  }

  /** `slugify(text)`. */
  function Slugify(text: string): (r: string)
    ensures IsSlug(r)
  {
    var d := Dashify(Lower(text));
    var r := StripEndDashes(d);
    SlugOfStripped(d);
    r
  }

  lemma SlugOfStripped(d: string)
    requires forall i :: 0 <= i < |d| ==> IsAlnum(d[i]) || d[i] == '-'
    requires forall i :: 0 <= i < |d| - 1 ==> !(d[i] == '-' && d[i + 1] == '-')
    ensures IsSlug(StripEndDashes(d))
  {
    var r := StripEndDashes(d);
    var off := if |d| > 0 && d[0] == '-' then 1 else 0;
    assert forall i :: 0 <= i < |r| ==> r[i] == d[i + off];
    if |r| > 0 && off == 1 {
      assert r[0] == d[1];
    }
  }

  /** Slugs are left alone: with `IsSlug` of every output, slugify is
      idempotent. */
  lemma SlugifyFixesSlugs(t: string)
    requires IsSlug(t)
    ensures Slugify(t) == t
  {
    assert Lower(t) == t;
    DashifySlug(t);
  }

  lemma {:induction false} DashifySlug(t: string)
    requires forall i :: 0 <= i < |t| ==> IsAlnum(t[i]) || t[i] == '-'
    requires forall i :: 0 <= i < |t| - 1 ==> !(t[i] == '-' && t[i + 1] == '-')
    requires |t| > 0 ==> t[|t| - 1] != '-'
    ensures Dashify(t) == t
    decreases |t|
  {
    if |t| > 0 {
      var rest := t[1..];
      SlugBodyTail(t);
      DashifySlug(rest);
      if IsAlnum(t[0]) {
        DashifyAlnumHead(t);
      } else {
        DashifyDashHead(t);
      }
    }
  }

  /** The conditions `DashifySlug` needs carry over to the tail. */
  lemma SlugBodyTail(t: string)
    requires |t| > 0
    requires forall i :: 0 <= i < |t| ==> IsAlnum(t[i]) || t[i] == '-'
    requires forall i :: 0 <= i < |t| - 1 ==> !(t[i] == '-' && t[i + 1] == '-')
    requires t[|t| - 1] != '-'
    ensures forall i :: 0 <= i < |t[1..]| ==> IsAlnum(t[1..][i]) || t[1..][i] == '-'
    ensures forall i :: 0 <= i < |t[1..]| - 1 ==> !(t[1..][i] == '-' && t[1..][i + 1] == '-')
    ensures |t[1..]| > 0 ==> t[1..][|t[1..]| - 1] != '-'
    ensures !IsAlnum(t[0]) ==> |t| > 1 && IsAlnum(t[1])
  {
  }

  lemma DashifyAlnumHead(t: string)
    requires |t| > 0 && IsAlnum(t[0]) && Dashify(t[1..]) == t[1..]
    ensures Dashify(t) == t
  {
    assert Dashify(t) == [t[0]] + Dashify(t[1..]);
    assert t == [t[0]] + t[1..];
  }

  lemma DashifyDashHead(t: string)
    requires |t| > 1 && t[0] == '-' && IsAlnum(t[1]) && Dashify(t[1..]) == t[1..]
    ensures Dashify(t) == t
  {
    assert !IsAlnum(t[0]);
    assert SkipNonAlnum(t[1..]) == t[1..];
    assert Dashify(t) == "-" + Dashify(t[1..]);
    assert t == "-" + t[1..];
  }

  /** Only letters and digits, checked character by character. */
  predicate Alnums(s: string)
    decreases |s|
  {
    |s| == 0 || (IsAlnum(s[0]) && Alnums(s[1..]))
  }

  /** A leading letter or digit is copied as it is. */
  lemma DashifyCons(c: char, rest: string)
    requires IsAlnum(c)
    ensures Dashify([c] + rest) == [c] + Dashify(rest)
  {
    assert ([c] + rest)[1..] == rest;
  }

  lemma {:induction false} DashifyPrefix(a: string, b: string)
    requires Alnums(a)
    ensures Dashify(a + b) == a + Dashify(b)
    decreases |a|
  {
    if |a| > 0 {
      var t := a[1..];
      assert a + b == [a[0]] + (t + b);
      DashifyCons(a[0], t + b);
      DashifyPrefix(t, b);
      assert a == [a[0]] + t;
    } else {
      assert a + b == b;
    }
  }

  lemma {:induction false} SkipNonAlnumRun(v: string, b: string)
    requires forall i :: 0 <= i < |v| ==> !IsAlnum(v[i])
    requires |b| == 0 || IsAlnum(b[0])
    ensures SkipNonAlnum(v + b) == b
    decreases |v|
  {
    if |v| > 0 {
      assert (v + b)[0] == v[0];
      assert (v + b)[1..] == v[1..] + b;
      assert forall i :: 0 <= i < |v[1..]| ==> v[1..][i] == v[i + 1];
      SkipNonAlnumRun(v[1..], b);
    } else {
      assert v + b == b;
    }
  }

  /** A run outside `[a-z0-9]` before a letter or digit, or before the end,
      becomes one dash. */
  lemma DashifyLeadingRun(w: string, b: string)
    requires |w| > 0 && forall i :: 0 <= i < |w| ==> !IsAlnum(w[i])
    requires |b| == 0 || IsAlnum(b[0])
    ensures Dashify(w + b) == "-" + Dashify(b)
  {
    var s := w + b;
    assert s[0] == w[0];
    assert s[1..] == w[1..] + b;
    assert forall i :: 0 <= i < |w[1..]| ==> w[1..][i] == w[i + 1];
    SkipNonAlnumRun(w[1..], b);
  }

  /** Letters and digits, then a run of anything else, then text starting
      with a letter or digit: the letters and digits are kept and the run
      becomes one dash. With an empty first part this is a leading run,
      with an empty rest a trailing one. */
  lemma DashifyRun(a: string, w: string, b: string)
    requires Alnums(a)
    requires |w| > 0 && forall i :: 0 <= i < |w| ==> !IsAlnum(w[i])
    requires |b| == 0 || IsAlnum(b[0])
    ensures Dashify(a + w + b) == a + "-" + Dashify(b)
  {
    DashifyPrefix(a, w + b);
    DashifyLeadingRun(w, b);
    Regroup(a, w, b, "-", Dashify(b));
  }

  /** Two words around a space slugify to their lower-case forms joined by
      a dash: `slugify("Hello World") == "hello-world"`. */
  lemma SlugifyHelloWorld(text: string)
    requires text == "Hello" + " " + "World"
    ensures Slugify(text) == "hello-world"
  {
    var l := Lower(text);
    assert l == "hello" + " " + "world";
    assert Alnums("hello") && Alnums("world");
    DashifyRun("hello", " ", "world");
    DashifyPrefix("world", "");
    assert "world" + "" == "world";
    assert Dashify(l) == "hello-world";
  }

  lemma SlugifyIdempotent(text: string)
    ensures Slugify(Slugify(text)) == Slugify(text)
  {
    SlugifyFixesSlugs(Slugify(text));
  }

  // ---------------------------------------------------------------- storage

  const PublicObjectPath: string := "/storage/v1/object/public/"

  /** `getStorageUrl(supabaseUrl, bucket, path)`. */
  function StorageUrl(supabaseUrl: string, bucket: string, path: string): (r: string)
    ensures StartsWith(r, supabaseUrl + PublicObjectPath + bucket + "/")
    ensures |r| == |supabaseUrl| + |PublicObjectPath| + |bucket| + 1 + |path|
  {
    var prefix := supabaseUrl + PublicObjectPath + bucket + "/";
    var r := prefix + path;
    assert r[..|prefix|] == prefix;
    r
  }

  /** The object path is recovered from the URL by dropping the bucket's
      prefix, so distinct paths give distinct URLs. */
  lemma StorageUrlPath(supabaseUrl: string, bucket: string, path: string)
    ensures var prefix := supabaseUrl + PublicObjectPath + bucket + "/";
            StorageUrl(supabaseUrl, bucket, path)[|prefix|..] == path
  {
  }

  // ---------------------------------------------------------------- file size

  datatype SizeUnit = Bytes | Kilobytes | Megabytes

  /** The unit `formatFileSize` picks. */
  function FileSizeUnit(bytes: int): (u: SizeUnit)
    ensures u == Bytes <==> bytes < 1024
    ensures u == Kilobytes <==> 1024 <= bytes < 1024 * 1024
    ensures u == Megabytes <==> bytes >= 1024 * 1024
  {
    if bytes < 1024 then Bytes else if bytes < 1024 * 1024 then Kilobytes else Megabytes
  }

  /** The text of the byte case, which prints the exact count; the other
      units print a one-decimal fraction, which is not modelled. */
  function FormatFileSize(bytes: int): (r: Option<string>)
    ensures r.Some? <==> FileSizeUnit(bytes) == Bytes
    ensures r.Some? && bytes >= 0 ==>
              |r.value| > 2 && r.value[|r.value| - 2..] == " B"
              && ParseDecimal(r.value[..|r.value| - 2]) == Some(bytes)
  {
    if bytes < 1024 then
      var n := IntString(bytes);
      var t := n + " B";
      assert t[..|t| - 2] == n && t[|t| - 2..] == " B";
      Some(t)
    else None
  }
}
