/** Heading identifiers of internal/markdown/renderer.go: slugs, their numeric suffixes and the walk
    that gives every heading of a document its own. */
module Headings {
  import opened Common

  /** Unicode letters and digits, and the lower-case mapping of one character. */
  datatype Alphabet = Alphabet(isWord: char -> bool, lower: char -> char)

  /** The hyphen is no word character and lower-casing leaves it alone; lower-casing twice changes nothing more. */
  ghost predicate Sensible(abc: Alphabet) {
    && !abc.isWord('-') && abc.lower('-') == '-'
    && forall c :: abc.lower(abc.lower(c)) == abc.lower(c)
  }

  // ---------------------------------------------------------------- slugs

  /** The words read so far, and whether the last one may still grow. */
  datatype Reading = Reading(words: seq<string>, open: bool)

  /** A word character belongs to a word, a space or hyphen ends one, anything else is skipped. */
  function Read(abc: Alphabet, r: Reading, c: char): Reading {
    if abc.isWord(c) then
      if r.open && r.words != [] then r.(words := Extend(r.words, c)) else Reading(r.words + [[c]], true)
    else if c == '-' || IsSpace(c) then r.(open := false)
    else r
  }

  function Extend(words: seq<string>, c: char): seq<string>
    requires words != []
  {
    words[..|words| - 1] + [words[|words| - 1] + [c]]
  }

  /** The words of a heading in lower case. */
  function Words(abc: Alphabet, text: string): Reading {
    if text == [] then Reading([], false)
    else Read(abc, Words(abc, text[..|text| - 1]), abc.lower(text[|text| - 1]))
  }

  function Hyphenate(words: seq<string>): string {
    if words == [] then "" else if |words| == 1 then words[0]
    else Hyphenate(words[..|words| - 1]) + "-" + words[|words| - 1]
  }

  /** The slug of a heading: its words, joined by single hyphens. */
  function Slug(abc: Alphabet, text: string): string { Hyphenate(Words(abc, text).words) }

  ghost predicate GoodWord(abc: Alphabet, w: string) {
    w != "" && forall c | c in w :: abc.isWord(c) && abc.lower(c) == c
  }

  ghost predicate GoodWords(abc: Alphabet, words: seq<string>) { forall w | w in words :: GoodWord(abc, w) }

  ghost predicate GoodReading(abc: Alphabet, r: Reading) { GoodWords(abc, r.words) && (r.open ==> r.words != []) }

  lemma ReadGood(abc: Alphabet, r: Reading, c: char)
    requires Sensible(abc) && GoodReading(abc, r)
    ensures GoodReading(abc, Read(abc, r, abc.lower(c)))
  {
    if r.words != [] {
      var front, last := r.words[..|r.words| - 1], r.words[|r.words| - 1];
      assert GoodWord(abc, last);
      assert abc.isWord(abc.lower(c)) ==> GoodWord(abc, last + [abc.lower(c)]);
      assert GoodWords(abc, front);
    }
  }

  lemma {:induction false} WordsGood(abc: Alphabet, text: string)
    requires Sensible(abc)
    ensures GoodReading(abc, Words(abc, text))
  {
    if text != [] {
      WordsGood(abc, text[..|text| - 1]);
      ReadGood(abc, Words(abc, text[..|text| - 1]), text[|text| - 1]);
    }
  }

  lemma HyphenateAppend(words: seq<string>, w: string)
    ensures Hyphenate(words + [w]) == if words == [] then w else Hyphenate(words) + "-" + w
  {
    assert (words + [w])[..|words|] == words;
  }

  lemma HyphenateExtend(words: seq<string>, c: char)
    requires words != []
    ensures Hyphenate(Extend(words, c)) == Hyphenate(words) + [c]
  {
    var front, last := words[..|words| - 1], words[|words| - 1];
    HyphenateAppend(front, last);
    HyphenateAppend(front, last + [c]);
    assert words == front + [last];
  }

  lemma {:induction false} HyphenateEmpty(abc: Alphabet, words: seq<string>)
    requires GoodWords(abc, words)
    ensures Hyphenate(words) == "" <==> words == []
  {
    if words != [] {
      assert GoodWord(abc, words[|words| - 1]);
    }
  }

  function TrimHyphensLeft(s: string): string { if s != [] && s[0] == '-' then TrimHyphensLeft(s[1..]) else s }

  function TrimHyphensRight(s: string): string {
    if s != [] && s[|s| - 1] == '-' then TrimHyphensRight(s[..|s| - 1]) else s
  }

  /** slugify: builds the words' join in one pass; the final trim finds nothing to remove. */
  method Slugify(abc: Alphabet, value: string) returns (slug: string)
    requires Sensible(abc)
    ensures slug == Slug(abc, value)
  {
    var builder, pendingHyphen := "", false;
    ghost var r := Reading([], false);
    for k := 0 to |value|
      invariant r == Words(abc, value[..k]) && GoodReading(abc, r)
      invariant builder == Hyphenate(r.words) && pendingHyphen == (!r.open && r.words != [])
    {
      var c := abc.lower(value[k]);
      assert value[..k + 1][..k] == value[..k];
      HyphenateEmpty(abc, r.words);
      if abc.isWord(c) {
        if r.open { HyphenateExtend(r.words, c); } else { HyphenateAppend(r.words, [c]); }
        if pendingHyphen && |builder| > 0 { builder := builder + "-"; }
        builder := builder + [c];
        pendingHyphen := false;
      } else if c == '-' || IsSpace(c) {
        if |builder| > 0 { pendingHyphen := true; }
      }
      r := Read(abc, r, c);
      WordsGood(abc, value[..k + 1]);
    }
    assert value[..|value|] == value;
    SlugShape(abc, value);
    slug := TrimHyphensRight(TrimHyphensLeft(builder));
  }

  /** Letters and digits in lower case, and hyphens neither first nor last nor doubled. */
  ghost predicate SlugLike(abc: Alphabet, s: string) {
    && (forall c | c in s :: c == '-' || (abc.isWord(c) && abc.lower(c) == c))
    && (s != "" ==> s[0] != '-' && s[|s| - 1] != '-')
    && (forall i | 0 <= i < |s| - 1 :: !(s[i] == '-' && s[i + 1] == '-'))
  }

  lemma SlugLikeJoin(abc: Alphabet, s: string, w: string)
    requires Sensible(abc) && SlugLike(abc, s) && s != "" && GoodWord(abc, w)
    ensures SlugLike(abc, s + "-" + w)
  {
    var all := s + "-" + w;
    forall i | 0 <= i < |all| - 1 ensures !(all[i] == '-' && all[i + 1] == '-') {
      if i < |s| - 1 {
        assert all[i] == s[i] && all[i + 1] == s[i + 1];
      } else if i > |s| {
        assert all[i] == w[i - |s| - 1];
      }
    }
  }

  lemma {:induction false} HyphenateShape(abc: Alphabet, words: seq<string>)
    requires Sensible(abc) && GoodWords(abc, words)
    ensures SlugLike(abc, Hyphenate(words))
  {
    if words != [] {
      var front, last := words[..|words| - 1], words[|words| - 1];
      assert words == front + [last] && GoodWord(abc, last);
      HyphenateAppend(front, last);
      HyphenateShape(abc, front);
      HyphenateEmpty(abc, front);
      if front != [] { SlugLikeJoin(abc, Hyphenate(front), last); }
    }
  }

  lemma SlugShape(abc: Alphabet, text: string)
    requires Sensible(abc)
    ensures SlugLike(abc, Slug(abc, text))
  {
    WordsGood(abc, text);
    HyphenateShape(abc, Words(abc, text).words);
  }

  lemma ReadFirst(abc: Alphabet, before: string, c: char)
    requires Sensible(abc) && !Words(abc, before).open && abc.isWord(c) && abc.lower(c) == c
    ensures Words(abc, before + [c]) == Reading(Words(abc, before).words + [[c]], true)
  {
    assert (before + [c])[..|before|] == before;
  }

  lemma ReadMore(abc: Alphabet, before: string, words: seq<string>, w: string, c: char)
    requires Sensible(abc) && Words(abc, before + w) == Reading(words + [w], true) && abc.isWord(c) && abc.lower(c) == c
    ensures Words(abc, before + (w + [c])) == Reading(words + [w + [c]], true)
  {
    assert (before + (w + [c]))[..|before + w|] == before + w;
    assert (words + [w])[..|words|] == words;
  }

  lemma {:induction false} ReadWord(abc: Alphabet, before: string, w: string)
    requires Sensible(abc) && GoodWord(abc, w) && !Words(abc, before).open
    ensures Words(abc, before + w) == Reading(Words(abc, before).words + [w], true)
  {
    var front, c := w[..|w| - 1], w[|w| - 1];
    assert w == front + [c];
    if front == "" {
      assert w == [c];
      ReadFirst(abc, before, c);
    } else {
      ReadWord(abc, before, front);
      ReadMore(abc, before, Words(abc, before).words, front, c);
    }
  }

  lemma {:induction false} ReadHyphenated(abc: Alphabet, words: seq<string>)
    requires Sensible(abc) && GoodWords(abc, words)
    ensures Words(abc, Hyphenate(words)) == Reading(words, words != [])
  {
    if words != [] {
      var front, last := words[..|words| - 1], words[|words| - 1];
      assert words == front + [last] && GoodWord(abc, last);
      HyphenateAppend(front, last);
      ReadHyphenated(abc, front);
      if front == [] {
        ReadWord(abc, "", last);
        assert "" + last == last;
      } else {
        var before := Hyphenate(front) + "-";
        assert before[..|before| - 1] == Hyphenate(front);
        ReadWord(abc, before, last);
      }
    }
  }

  /** A slug is its own slug. */
  lemma SlugIdempotent(abc: Alphabet, text: string)
    requires Sensible(abc)
    ensures Slug(abc, Slug(abc, text)) == Slug(abc, text)
  {
    WordsGood(abc, text);
    ReadHyphenated(abc, Words(abc, text).words);
  }

  // ---------------------------------------------------------------- what a slug is

  /** These three lemmas determine the slug of every text. A text of word characters is its own slug, in
      lower case. */
  lemma {:induction false} SlugOfWord(abc: Alphabet, w: string)
    requires Sensible(abc) && forall c | c in w :: abc.isWord(abc.lower(c))
    ensures Slug(abc, w) == Lower(abc, w)
    ensures w != "" ==> Words(abc, w) == Reading([Lower(abc, w)], true)
  {
    if w != "" {
      var front, last := w[..|w| - 1], w[|w| - 1];
      SlugOfWord(abc, front);
      assert last in w && Lower(abc, w) == Lower(abc, front) + [abc.lower(last)];
      assert front == "" ==> Lower(abc, w) == [abc.lower(last)];
    }
  }

  function Lower(abc: Alphabet, s: string): string { seq(|s|, i requires 0 <= i < |s| => abc.lower(s[i])) }

  /** A space or a hyphen separates: the slugs of the two sides are joined by one hyphen, unless one of
      them is empty. */
  lemma SlugAtSeparator(abc: Alphabet, left: string, c: char, right: string)
    requires Sensible(abc) && (abc.lower(c) == '-' || (IsSpace(abc.lower(c)) && !abc.isWord(abc.lower(c))))
    ensures var a, b := Slug(abc, left), Slug(abc, right);
            Slug(abc, left + [c] + right) == if a == "" then b else if b == "" then a else a + "-" + b
  {
    assert (left + [c])[..|left|] == left;
    ReadBehind(abc, left + [c], right);
    WordsGood(abc, left);
    WordsGood(abc, right);
    HyphenateJoin(Words(abc, left).words, Words(abc, right).words);
    HyphenateEmpty(abc, Words(abc, left).words);
    HyphenateEmpty(abc, Words(abc, right).words);
  }

  lemma {:induction false} ReadBehind(abc: Alphabet, before: string, text: string)
    requires Sensible(abc) && !Words(abc, before).open
    ensures Words(abc, before + text).words == Words(abc, before).words + Words(abc, text).words
    ensures Words(abc, before + text).open == Words(abc, text).open
  {
    if text == "" {
      assert before + text == before;
    } else {
      var front := text[..|text| - 1];
      assert (before + text)[..|before + text| - 1] == before + front;
      ReadBehind(abc, before, front);
      WordsGood(abc, front);
      ExtendBehind(Words(abc, before).words, Words(abc, front).words, abc.lower(text[|text| - 1]));
    }
  }

  lemma ExtendBehind(front: seq<string>, back: seq<string>, c: char)
    ensures back != [] ==> Extend(front + back, c) == front + Extend(back, c)
  {}

  lemma {:induction false} HyphenateJoin(a: seq<string>, b: seq<string>)
    ensures Hyphenate(a + b) ==
            if a == [] then Hyphenate(b) else if b == [] then Hyphenate(a) else Hyphenate(a) + "-" + Hyphenate(b)
  {
    if b == [] {
      assert a + b == a;
    } else if a == [] {
      assert a + b == b;
    } else {
      var front, last := b[..|b| - 1], b[|b| - 1];
      assert b == front + [last] && a + b == (a + front) + [last];
      HyphenateAppend(front, last);
      HyphenateAppend(a + front, last);
      HyphenateJoin(a, front);
      if front != [] {
        assert Hyphenate(a) + "-" + Hyphenate(front) + "-" + last ==
               Hyphenate(a) + "-" + (Hyphenate(front) + "-" + last);
      }
    }
  }

  /** Any other character is dropped. */
  lemma {:induction false} SlugDrops(abc: Alphabet, left: string, c: char, right: string)
    requires abc.lower(c) != '-' && !IsSpace(abc.lower(c)) && !abc.isWord(abc.lower(c))
    ensures Words(abc, left + [c] + right) == Words(abc, left + right)
    ensures Slug(abc, left + [c] + right) == Slug(abc, left + right)
  {
    if right == "" {
      assert left + [c] + right == left + [c] && left + right == left;
      WordsStep(abc, left, c);
    } else {
      var front, last := right[..|right| - 1], right[|right| - 1];
      SlugDrops(abc, left, c, front);
      WordsStep(abc, left + [c] + front, last);
      WordsStep(abc, left + front, last);
      assert left + [c] + right == left + [c] + front + [last] && left + right == left + front + [last];
    }
  }

  lemma WordsStep(abc: Alphabet, text: string, c: char)
    ensures Words(abc, text + [c]) == Read(abc, Words(abc, text), abc.lower(c))
  {
    assert (text + [c])[..|text|] == text;
  }

  // ---------------------------------------------------------------- decimal suffixes

  const MAX_INT := 0x7FFF_FFFF_FFFF_FFFF

  function Pow10(n: nat): (p: nat)
    ensures p > 0
  {
    if n == 0 then 1 else 10 * Pow10(n - 1)
  }

  lemma NineteenDigits()
    ensures Pow10(19) > MAX_INT
  {
    assert Pow10(5) == 100000;
    assert Pow10(10) == 10000000000;
    assert Pow10(15) == 1000000000000000;
  }

  /** `digits` ends the numeral of `value`, `rest` is what stands before them and fits `room` digits. */
  ghost predicate Written(value: int, rest: int, digits: string, room: nat) {
    value > 0 && rest >= 0 &&
    if rest == 0 then digits == Decimal(value) else rest < Pow10(room) && Decimal(rest) + digits == Decimal(value)
  }

  /** One turn of the loop moves one digit over, and there is room for it. */
  lemma OneDigit(value: int, rest: int, digits: string, room: nat)
    requires rest > 0 && Written(value, rest, digits, room)
    ensures room >= 1 && Written(value, rest / 10, [Digit(rest % 10)] + digits, room - 1)
  {
    if rest >= 10 {
      assert Decimal(rest) == Decimal(rest / 10) + [Digit(rest % 10)];
      assert Decimal(rest) + digits == Decimal(rest / 10) + ([Digit(rest % 10)] + digits);
    } else {
      assert Decimal(rest) + digits == [Digit(rest % 10)] + digits;
    }
  }

  /** itoa: for every 64-bit integer the twenty octets suffice, and hold the decimal numeral. */
  method Itoa(value: int) returns (s: string)
    requires -MAX_INT - 1 <= value <= MAX_INT
    ensures s == if value < 0 then "" else Decimal(value)
  {
    if value == 0 { return "0"; }
    var reversed := new char[20](_ => '0');
    var i, rest := 20, value;
    NineteenDigits();
    while rest > 0
      invariant 1 <= i <= 20
      invariant if value < 0 then rest == value && i == 20 else Written(value, rest, reversed[i..], i - 1)
      decreases rest
    {
      ghost var behind := reversed[i..];
      OneDigit(value, rest, behind, i - 1);
      i := i - 1;
      reversed[i] := Digit(rest % 10);
      assert reversed[i..] == [Digit(rest % 10)] + behind;
      rest := rest / 10;
    }
    s := reversed[i..];
  }

  // ---------------------------------------------------------------- unique identifiers

  /** The names tried for one base: itself, then numbered from 2. */
  function Candidate(base: string, k: nat): string
    requires k >= 1
  {
    if k == 1 then base else base + "-" + Decimal(k)
  }

  lemma CandidateInjective(base: string, j: nat, k: nat)
    requires j >= 1 && k >= 1 && Candidate(base, j) == Candidate(base, k)
    ensures j == k
  {
    if j > 1 && k > 1 {
      assert Candidate(base, j)[|base| + 1..] == Decimal(j);
      assert Candidate(base, k)[|base| + 1..] == Decimal(k);
      DecimalInjective(j, k);
    }
  }

  /** `used` holds at least as many names as candidates in a row it blocks. */
  lemma BlockedBound(base: string, used: set<string>, n: nat)
    requires forall j | 1 <= j <= n :: Candidate(base, j) in used
    ensures n <= |used|
  {
    var tried := seq(n, j requires 0 <= j < n => Candidate(base, j + 1));
    forall i, j | 0 <= i < j < n ensures tried[i] != tried[j] {
      if tried[i] == tried[j] { CandidateInjective(base, i + 1, j + 1); }
    }
    ElementsSize(tried);
    SubsetSize(Elements(tried), used);
  }

  /** Candidate `k` is the first that is not taken. */
  ghost predicate FirstFree(base: string, used: set<string>, k: nat) {
    && k >= 1 && Candidate(base, k) !in used
    && forall j | 1 <= j < k :: Candidate(base, j) in used
  }

  /** The base of a heading's identifier; a heading without words takes it from its digest. */
  function Base(abc: Alphabet, digest: string -> string, text: string): string
    requires forall t :: |digest(t)| >= 8
  {
    if Slug(abc, text) == "" then "section-" + digest(text)[..8] else Slug(abc, text)
  }

  /** uniqueHeadingID: the first free candidate, found among the first |used| + 1. */
  method UniqueHeadingID(abc: Alphabet, digest: string -> string, text: string, used: set<string>)
    returns (id: string, nowUsed: set<string>, ghost k: nat)
    requires Sensible(abc) && (forall t :: |digest(t)| >= 8) && |used| < MAX_INT
    ensures FirstFree(Base(abc, digest, text), used, k) && k <= |used| + 1
    ensures id == Candidate(Base(abc, digest, text), k) && nowUsed == used + {id}
    ensures var base := if Slug(abc, text) == "" then "section-" + digest(text)[..8] else Slug(abc, text);
            && id == (if k == 1 then base else base + "-" + Decimal(k)) && id !in used
            && (k > 1 ==> base in used) && forall j | 2 <= j < k :: base + "-" + Decimal(j) in used
  {
    var base := Slugify(abc, text);
    if base == "" {
      var digits := digest(text);
      base := "section-" + digits[..8];
    }
    var candidate, count := base, 1;
    while candidate in used
      invariant 1 <= count <= |used| + 1 && candidate == Candidate(base, count)
      invariant forall j | 1 <= j < count :: Candidate(base, j) in used
      decreases |used| + 1 - count
    {
      BlockedBound(base, used, count);
      count := count + 1;
      var suffix := Itoa(count);
      candidate := base + "-" + suffix;
    }
    k := count;
    forall j | 2 <= j < k ensures base + "-" + Decimal(j) in used { assert Candidate(base, j) in used; }
    assert k > 1 ==> Candidate(base, 1) in used;
    id, nowUsed := candidate, used + {candidate};
  }

  datatype Heading = Heading(level: nat, text: string)

  datatype TocItem = TocItem(id: string, level: nat)

  predicate Listed(h: Heading) { h.level == 2 || h.level == 3 }

  /** Every listed heading, in order, has the first identifier free after those before it. */
  ghost predicate Identified(abc: Alphabet, digest: string -> string, headings: seq<Heading>, items: seq<TocItem>)
    requires forall t :: |digest(t)| >= 8
  {
    if headings == [] then items == []
    else
      var front, h := headings[..|headings| - 1], headings[|headings| - 1];
      if !Listed(h) then Identified(abc, digest, front, items)
      else
        && items != [] && Identified(abc, digest, front, items[..|items| - 1]) && items[|items| - 1].level == h.level
        && exists k: nat :: FirstFree(Base(abc, digest, h.text), Ids(items[..|items| - 1]), k) &&
                       items[|items| - 1].id == Candidate(Base(abc, digest, h.text), k)
  }

  function Ids(items: seq<TocItem>): set<string> { set t | t in items :: t.id }

  /** All identifiers of a document are different. */
  lemma {:induction false} IdentifiersDistinct(abc: Alphabet, digest: string -> string, headings: seq<Heading>,
                                               items: seq<TocItem>)
    requires (forall t :: |digest(t)| >= 8) && Identified(abc, digest, headings, items)
    ensures forall i, j | 0 <= i < j < |items| :: items[i].id != items[j].id
  {
    if headings != [] {
      var front, h := headings[..|headings| - 1], headings[|headings| - 1];
      if Listed(h) {
        var n := |items| - 1;
        IdentifiersDistinct(abc, digest, front, items[..n]);
        forall i, j | 0 <= i < j < |items| ensures items[i].id != items[j].id {
          if j < n { assert items[..n][i].id != items[..n][j].id; } else { assert items[..n][i] in items[..n]; }
        }
      } else {
        IdentifiersDistinct(abc, digest, front, items);
      }
    }
  }

  /** The levels of the headings that are listed. */
  function Outline(headings: seq<Heading>): seq<nat> {
    if headings == [] then []
    else
      var h := headings[|headings| - 1];
      Outline(headings[..|headings| - 1]) + if h.level == 2 || h.level == 3 then [h.level] else []
  }

  function Levels(items: seq<TocItem>): seq<nat> { seq(|items|, i requires 0 <= i < |items| => items[i].level) }

  /** Exactly the headings of level 2 and 3 are listed, in order and with their levels. */
  lemma {:induction false} IdentifiedLevels(abc: Alphabet, digest: string -> string, headings: seq<Heading>,
                                            items: seq<TocItem>)
    requires (forall t :: |digest(t)| >= 8) && Identified(abc, digest, headings, items)
    ensures Levels(items) == Outline(headings)
  {
    if headings != [] {
      var front, h := headings[..|headings| - 1], headings[|headings| - 1];
      if Listed(h) {
        IdentifiedLevels(abc, digest, front, items[..|items| - 1]);
        assert Levels(items) == Levels(items[..|items| - 1]) + [h.level];
      } else {
        IdentifiedLevels(abc, digest, front, items);
      }
    }
  }

  /** Three listed headings with the same text receive its slug, and that with "-2" and "-3". */
  lemma RepeatedHeading(abc: Alphabet, digest: string -> string, h: Heading, items: seq<TocItem>)
    requires (forall t :: |digest(t)| >= 8) && Identified(abc, digest, [h, h, h], items) && h.level in {2, 3}
    requires Slug(abc, h.text) != ""
    ensures var s := Slug(abc, h.text); |items| == 3 && items[0].id == s && items[1].id == s + "-2" &&
                                        items[2].id == s + "-3"
  {
    var s := Slug(abc, h.text);
    var two := items[..|items| - 1];
    assert [h, h, h] == [h, h] + [h];
    IdentifiedLast(abc, digest, [h, h], h, items);
    HeadingTwice(abc, digest, h, two);
    assert items[0] == two[0] && items[1] == two[1] && Ids(two) == {s, s + "-2"};
    FirstFreeIs(s, {s, s + "-2"}, 3, items[2].id);
  }

  lemma HeadingTwice(abc: Alphabet, digest: string -> string, h: Heading, items: seq<TocItem>)
    requires (forall t :: |digest(t)| >= 8) && Identified(abc, digest, [h, h], items) && h.level in {2, 3}
    requires Slug(abc, h.text) != ""
    ensures var s := Slug(abc, h.text); |items| == 2 && items[0].id == s && items[1].id == s + "-2"
  {
    var s := Slug(abc, h.text);
    var one := items[..|items| - 1];
    assert [h, h] == [h] + [h] && [] + [h] == [h];
    IdentifiedLast(abc, digest, [h], h, items);
    IdentifiedLast(abc, digest, [], h, one);
    FirstFreeIs(s, {}, 1, one[0].id);
    assert items[0] == one[0] && Ids(one) == {s};
    FirstFreeIs(s, {s}, 2, items[1].id);
  }

  lemma IdentifiedLast(abc: Alphabet, digest: string -> string, headings: seq<Heading>, h: Heading,
                       items: seq<TocItem>)
    requires (forall t :: |digest(t)| >= 8) && Identified(abc, digest, headings + [h], items) && h.level in {2, 3}
    ensures items != [] && Identified(abc, digest, headings, items[..|items| - 1])
    ensures headings == [] ==> |items| == 1
    ensures exists k: nat :: FirstFree(Base(abc, digest, h.text), Ids(items[..|items| - 1]), k) &&
                             items[|items| - 1].id == Candidate(Base(abc, digest, h.text), k)
  {
    assert (headings + [h])[..|headings|] == headings;
  }

  /** Only one candidate is the first free one. */
  lemma FirstFreeIs(base: string, used: set<string>, k: nat, id: string)
    requires k in {1, 2, 3} && used == (if k == 1 then {} else if k == 2 then {base} else {base, base + "-2"})
    requires exists j: nat :: FirstFree(base, used, j) && id == Candidate(base, j)
    ensures id == if k == 1 then base else if k == 2 then base + "-2" else base + "-3"
  {
    assert Decimal(2) == "2" && Decimal(3) == "3";
    var j: nat :| FirstFree(base, used, j) && id == Candidate(base, j);
    assert Candidate(base, 1) == base && Candidate(base, 2) == base + "-2" && Candidate(base, 3) == base + "-3";
    assert |base| < |base + "-2"| == |base + "-3"| && (base + "-2")[|base| + 1] != (base + "-3")[|base| + 1];
    assert Candidate(base, k) !in used;
  }

  lemma IdentifiedSkip(abc: Alphabet, digest: string -> string, headings: seq<Heading>, h: Heading, items: seq<TocItem>)
    requires (forall t :: |digest(t)| >= 8) && Identified(abc, digest, headings, items) && !Listed(h)
    ensures Identified(abc, digest, headings + [h], items)
  {
    assert (headings + [h])[..|headings|] == headings;
  }

  lemma IdentifiedNext(abc: Alphabet, digest: string -> string, headings: seq<Heading>, h: Heading,
                       items: seq<TocItem>, k: nat)
    requires (forall t :: |digest(t)| >= 8) && Identified(abc, digest, headings, items) && Listed(h)
    requires FirstFree(Base(abc, digest, h.text), Ids(items), k)
    ensures var item := TocItem(Candidate(Base(abc, digest, h.text), k), h.level);
            Identified(abc, digest, headings + [h], items + [item]) && Ids(items + [item]) == Ids(items) + {item.id}
  {
    var item := TocItem(Candidate(Base(abc, digest, h.text), k), h.level);
    assert (headings + [h])[..|headings|] == headings;
    assert (items + [item])[..|items|] == items;
  }

  /** The second walk of Render. */
  method CollectHeadings(abc: Alphabet, digest: string -> string, headings: seq<Heading>) returns (items: seq<TocItem>)
    requires Sensible(abc) && (forall t :: |digest(t)| >= 8) && |headings| < MAX_INT
    ensures Identified(abc, digest, headings, items)
  {
    items := [];
    var used: set<string> := {};
    for n := 0 to |headings|
      invariant Identified(abc, digest, headings[..n], items) && used == Ids(items) && |used| <= n
    {
      var h := headings[n];
      assert headings[..n + 1] == headings[..n] + [h];
      if h.level != 2 && h.level != 3 {
        IdentifiedSkip(abc, digest, headings[..n], h, items);
        continue;
      }
      var id, nowUsed, k := UniqueHeadingID(abc, digest, h.text, used);
      IdentifiedNext(abc, digest, headings[..n], h, items, k);
      items, used := items + [TocItem(id, h.level)], nowUsed;
    }
    assert headings[..|headings|] == headings;
  }
}
