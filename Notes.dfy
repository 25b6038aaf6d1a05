/** Notes and the pure helpers of the note-taking page: finding and
    removing a note by id, the search filter, the preview truncation of a
    note's content and the dark-background test for a note's colour. */
module Notes {
  import opened JsString
  import opened JsArray

  /** One stored note. `timestamp` is the ISO text of the last save; there
      is no separate creation time. */
  datatype Note = Note(id: int, title: string, content: string, color: string, timestamp: string)

  /** Some note in `notes` carries `id`. */
  predicate HasId(notes: seq<Note>, id: int)
  {
    exists k :: 0 <= k < |notes| && notes[k].id == id
  }

  /** `notes.findIndex(note => note.id === id)`: the first index holding
      `id`, or -1. Ids are not unique, so "first" matters. */
  function IndexOfId(notes: seq<Note>, id: int): (i: int)
    ensures -1 <= i < |notes|
    ensures i == -1 <==> !HasId(notes, id)
    ensures 0 <= i ==> notes[i].id == id && forall k :: 0 <= k < i ==> notes[k].id != id
  {
    FindIndex(notes, (n: Note) => n.id == id)
  }

  /** `notes.filter(note => note.id !== id)`: what deleting `id` leaves. */
  function Without(notes: seq<Note>, id: int): (r: seq<Note>)
    ensures |r| <= |notes|
    ensures forall k :: 0 <= k < |r| ==> r[k] in notes && r[k].id != id
    ensures forall k :: 0 <= k < |notes| && notes[k].id != id ==> notes[k] in r
  {
    Filter(notes, (n: Note) => n.id != id)
  }

  /** Deleting keeps the remaining notes in their original order. */
  lemma WithoutKeepsOrder(notes: seq<Note>, id: int)
    ensures IsSubsequence(Without(notes, id), notes)
  {
    FilterIsSubsequence(notes, (n: Note) => n.id != id);
  }

  /** Deleting from a concatenation deletes from both parts. */
  lemma WithoutAppend(a: seq<Note>, b: seq<Note>, id: int)
    ensures Without(a + b, id) == Without(a, id) + Without(b, id)
  {
    FilterAppend(a, b, (n: Note) => n.id != id);
  }

  /** Deleting an id no note carries changes nothing. */
  lemma WithoutAbsent(notes: seq<Note>, id: int)
    requires !HasId(notes, id)
    ensures Without(notes, id) == notes
  {
    FilterAllPass(notes, (n: Note) => n.id != id);
  }

  /** Deleting an id some note carries removes at least one note. */
  lemma WithoutPresent(notes: seq<Note>, id: int)
    requires HasId(notes, id)
    ensures |Without(notes, id)| < |notes|
  {
    var k :| 0 <= k < |notes| && notes[k].id == id;
    FilterDropsFailing(notes, (n: Note) => n.id != id, k);
  }

  /** Deleting is idempotent: the second deletion finds nothing to remove. */
  lemma WithoutIdempotent(notes: seq<Note>, id: int)
    ensures !HasId(Without(notes, id), id)
    ensures Without(Without(notes, id), id) == Without(notes, id)
  {
    WithoutAbsent(Without(notes, id), id);
  }

  /** A note matches a lower-case search term when its lower-cased title or
      lower-cased content contains the term. */
  predicate Matches(n: Note, term: string)
  {
    Includes(ToLower(n.title), term) || Includes(ToLower(n.content), term)
  }

  /** The search box's filter: the query is lower-cased; an empty query
      shows every note, any other keeps the notes that match it, in order. */
  function Search(notes: seq<Note>, query: string): (r: seq<Note>)
    ensures query == [] ==> r == notes
    ensures |r| <= |notes|
    ensures forall k :: 0 <= k < |r| ==> r[k] in notes && Matches(r[k], ToLower(query))
    ensures forall k :: 0 <= k < |notes| && Matches(notes[k], ToLower(query)) ==> notes[k] in r
  {
    var term := ToLower(query);
    if term == [] then
      assert forall k :: 0 <= k < |notes| ==> OccursAt(ToLower(notes[k].title), term, 0);
      notes
    else
      Filter(notes, (n: Note) => Matches(n, term))
  }

  /** Searching never reorders: the result is a subsequence of the notes. */
  lemma SearchKeepsOrder(notes: seq<Note>, query: string)
    ensures IsSubsequence(Search(notes, query), notes)
  {
    var term := ToLower(query);
    if term == [] {
      FilterAllPass(notes, (n: Note) => true);
      FilterIsSubsequence(notes, (n: Note) => true);
    } else {
      FilterIsSubsequence(notes, (n: Note) => Matches(n, term));
    }
  }

  /** Searching a concatenation searches both parts and keeps them in order. */
  lemma SearchAppend(a: seq<Note>, b: seq<Note>, query: string)
    ensures Search(a + b, query) == Search(a, query) + Search(b, query)
  {
    var term := ToLower(query);
    if term != [] {
      FilterAppend(a, b, (n: Note) => Matches(n, term));
    }
  }

  /** The query's letter case does not matter. */
  lemma SearchIgnoresQueryCase(notes: seq<Note>, query: string)
    ensures Search(notes, ToLower(query)) == Search(notes, query)
  {
    ToLowerIdempotent(query);
  }

  /** Every note matches the empty term. */
  lemma MatchesEmptyTerm(n: Note)
    ensures Matches(n, [])
  {
    assert OccursAt(ToLower(n.title), [], 0);
  }

  /** A query that no note matches gives an empty result. The empty query
      matches every note, so it meets this only on the empty list. */
  lemma SearchNoMatch(notes: seq<Note>, query: string)
    requires forall k :: 0 <= k < |notes| ==> !Matches(notes[k], ToLower(query))
    ensures Search(notes, query) == []
  {
    var term := ToLower(query);
    if term == [] {
      if notes != [] {
        MatchesEmptyTerm(notes[0]);
        assert false;
      }
    } else {
      FilterNonePass(notes, (n: Note) => Matches(n, term));
    }
  }

  /** A query that every note matches gives back the whole list. */
  lemma SearchAllMatch(notes: seq<Note>, query: string)
    requires forall k :: 0 <= k < |notes| ==> Matches(notes[k], ToLower(query))
    ensures Search(notes, query) == notes
  {
    var term := ToLower(query);
    if term != [] {
      FilterAllPass(notes, (n: Note) => Matches(n, term));
    }
  }

  /** Searching "MILK" finds one note by the "Milk" that opens its title
      and another by the "milk" inside its content, in list order. */
  lemma SearchScenario(groceries: Note, todo: Note)
    requires groceries.title == "Milk" && todo.content == "a milk"
    ensures Search([groceries, todo], "MILK") == [groceries, todo]
  {
    var term := ToLower("MILK");
    assert term == "milk" by {
      assert forall k :: 0 <= k < 4 ==> term[k] == LowerChar("MILK"[k]);
    }
    var title := ToLower(groceries.title);
    assert title[..4] == "milk" by {
      assert forall k :: 0 <= k < 4 ==> title[k] == LowerChar("Milk"[k]);
    }
    assert OccursAt(title, term, 0);
    var content := ToLower(todo.content);
    assert content[2..6] == "milk" by {
      assert forall k :: 2 <= k < 6 ==> content[k] == LowerChar("a milk"[k]);
    }
    assert OccursAt(content, term, 2);
    var notes := [groceries, todo];
    assert Matches(notes[0], term) && Matches(notes[1], term);
    SearchAllMatch(notes, "MILK");
  }

  /** The number of content characters a note's preview shows. */
  const PREVIEW_LENGTH := 150

  /** The preview of a note's content: longer content is cut to its first
      150 characters followed by "...". */
  function Truncate(content: string): (r: string)
    ensures |r| <= PREVIEW_LENGTH + 3
    ensures |content| <= PREVIEW_LENGTH ==> r == content
    ensures |content| > PREVIEW_LENGTH ==>
      content[..PREVIEW_LENGTH] <= r && r[PREVIEW_LENGTH..] == "..."
  {
    if |content| > PREVIEW_LENGTH then content[..PREVIEW_LENGTH] + "..." else content
  }

  /** Truncating a preview again gives the same preview. */
  lemma TruncateIdempotent(content: string)
    ensures Truncate(Truncate(content)) == Truncate(content)
  {
  }

  predicate IsHexDigit(c: char)
  {
    '0' <= c <= '9' || 'a' <= c <= 'f' || 'A' <= c <= 'F'
  }

  function HexDigitValue(c: char): (v: nat)
    requires IsHexDigit(c)
    ensures v < 16
  {
    if '0' <= c <= '9' then c as int - '0' as int
    else if 'a' <= c <= 'f' then c as int - 'a' as int + 10
    else c as int - 'A' as int + 10
  }

  /** `parseInt(s, 16)` on a string of exactly two hexadecimal digits. */
  function ParseHexPair(s: string): (v: nat)
    requires |s| == 2 && IsHexDigit(s[0]) && IsHexDigit(s[1])
    ensures v < 256
  {
    16 * HexDigitValue(s[0]) + HexDigitValue(s[1])
  }

  /** The lower-case hexadecimal digit of a value below 16. */
  function HexDigit(d: nat): (c: char)
    requires d < 16
    ensures IsHexDigit(c) && !IsAsciiUpper(c) && HexDigitValue(c) == d
  {
    if d < 10 then ('0' as int + d) as char else ('a' as int + d - 10) as char
  }

  /** A value below 256 written as two lower-case hexadecimal digits,
      the form of each pair in a `#rrggbb` colour. */
  function HexPair(v: nat): (s: string)
    requires v < 256
    ensures |s| == 2 && IsHexDigit(s[0]) && IsHexDigit(s[1]) && ToLower(s) == s
  {
    [HexDigit(v / 16), HexDigit(v % 16)]
  }

  /** Parsing a formatted pair gives the value back. */
  lemma ParseHexPairRoundTrip(v: nat)
    requires v < 256
    ensures ParseHexPair(HexPair(v)) == v
  {
    var s := HexPair(v);
    assert HexDigitValue(s[0]) == v / 16 && HexDigitValue(s[1]) == v % 16;
  }

  /** Upper- and lower-case spellings of a digit parse to the same value,
      as they do for `parseInt`; formatting that value gives the
      lower-case spelling. */
  lemma HexDigitIgnoresCase(c: char)
    requires IsHexDigit(c)
    ensures IsHexDigit(LowerChar(c)) && HexDigitValue(LowerChar(c)) == HexDigitValue(c)
    ensures HexDigit(HexDigitValue(c)) == LowerChar(c)
  {
  }

  /** The letter case of a pair does not change its value. */
  lemma ParseHexPairIgnoresCase(s: string)
    requires |s| == 2 && IsHexDigit(s[0]) && IsHexDigit(s[1])
    ensures var t := ToLower(s); IsHexDigit(t[0]) && IsHexDigit(t[1]) && ParseHexPair(t) == ParseHexPair(s)
  {
    HexDigitIgnoresCase(s[0]);
    HexDigitIgnoresCase(s[1]);
  }

  /** Formatting a parsed pair gives the pair back, lower-cased. */
  lemma {:induction false} HexPairOfParse(s: string)
    requires |s| == 2 && IsHexDigit(s[0]) && IsHexDigit(s[1])
    ensures HexPair(ParseHexPair(s)) == ToLower(s)
  {
    var hi, lo := HexDigitValue(s[0]), HexDigitValue(s[1]);
    assert (16 * hi + lo) / 16 == hi && (16 * hi + lo) % 16 == lo;
    HexDigitIgnoresCase(s[0]);
    HexDigitIgnoresCase(s[1]);
  }

  /** A colour written `#rrggbb`; characters after the seventh are ignored,
      as the parser reads only the three pairs. */
  predicate IsHexColor(color: string)
  {
    |color| >= 7 && color[0] == '#' && forall k :: 1 <= k < 7 ==> IsHexDigit(color[k])
  }

  function Red(color: string): nat
    requires IsHexColor(color)
  {
    ParseHexPair(color[1..3])
  }

  function Green(color: string): nat
    requires IsHexColor(color)
  {
    ParseHexPair(color[3..5])
  }

  function Blue(color: string): nat
    requires IsHexColor(color)
  {
    ParseHexPair(color[5..7])
  }

  /** Whether a note colour is dark enough to need white text: never for
      the empty string, "white", "transparent" or a named colour; for
      `#rrggbb`, when its YIQ brightness `(299r + 587g + 114b) / 1000` is
      below 128. The division is exact here, as it is on the page's
      double-precision numbers: the sum is an integer of at most 255000. */
  function IsColorDark(color: string): (dark: bool)
    requires |color| > 0 && color[0] == '#' ==> IsHexColor(color)
    ensures |color| == 0 || color[0] != '#' ==> !dark
    ensures IsHexColor(color) ==>
      (dark <==> 299 * Red(color) + 587 * Green(color) + 114 * Blue(color) < 128000)
  {
    if color == "" || color == "white" || color == "transparent" then false
    else if color[0] == '#' then
      var brightness := (Red(color) * 299 + Green(color) * 587 + Blue(color) * 114) as real / 1000.0;
      brightness < 128.0
    else false
  }

  /** The threshold is strict: mid-grey `#7f7f7f` (brightness 127) is dark,
      `#808080` (brightness 128) is not; black is dark and white is not. */
  lemma IsColorDarkThreshold()
    ensures IsColorDark("#000000") && !IsColorDark("#ffffff")
    ensures IsColorDark("#7f7f7f") && !IsColorDark("#808080")
  {
  }
}
