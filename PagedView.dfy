/**
 * The paged list view: a message that shows a list of entries one page at a
 * time, with "Previous" and "Next" buttons that move between pages.
 */
module PagedView {
  import Numerals

  /** The text shown when the current page holds no entries. */
  const NoEntries := "No entries."

  /** One entry as listed, with its 1-based position in the whole list. */
  datatype NumberedLine = NumberedLine(number: nat, text: string)

  /** The part of a rendered page that the view computes. */
  datatype Embed = Embed(title: string, description: string)

  function Min(a: nat, b: nat): nat
  {
    if a <= b then a else b
  }

  /** Python's `s[lo:hi]` for non-negative bounds: both are clamped to `|s|`. */
  function Slice<T>(s: seq<T>, lo: nat, hi: nat): (r: seq<T>)
    ensures |r| == if lo < Min(hi, |s|) then Min(hi, |s|) - lo else 0
    ensures forall k :: 0 <= k < |r| ==> r[k] == s[lo + k]
  {
    if lo < Min(hi, |s|) then s[lo..Min(hi, |s|)] else []
  }

  /** The lines of page `page`: the entries from `page * chunk` on, at most
      `chunk` of them, each numbered by its position in `entries` plus one. */
  function PageLines(entries: seq<string>, page: nat, chunk: nat): (r: seq<NumberedLine>)
    ensures |r| == if page * chunk < |entries| then Min(chunk, |entries| - page * chunk) else 0
    ensures forall k :: 0 <= k < |r| ==>
      r[k].number == page * chunk + k + 1 && r[k].text == entries[page * chunk + k]
  {
    var start := page * chunk;
    var lines := Slice(entries, start, start + chunk);
    seq(|lines|, k requires 0 <= k < |lines| => NumberedLine(start + k + 1, lines[k]))
  }

  /** `f"{number}. {text}"` */
  function LineText(line: NumberedLine): string
  {
    Numerals.Show(line.number, 10) + ". " + line.text
  }

  /** `sep.join(parts)` */
  function Join(parts: seq<string>, sep: string): string
    decreases |parts|
  {
    if parts == [] then ""
    else if |parts| == 1 then parts[0]
    else parts[0] + sep + Join(parts[1..], sep)
  }

  function LineTexts(lines: seq<NumberedLine>): (r: seq<string>)
    ensures |r| == |lines|
    ensures forall k :: 0 <= k < |r| ==> r[k] == LineText(lines[k])
  {
    seq(|lines|, k requires 0 <= k < |lines| => LineText(lines[k]))
  }

  /** The description of an embed: the numbered lines one per row, or the
      placeholder when there are none. */
  function Description(lines: seq<NumberedLine>): string
  {
    if lines == [] then NoEntries else Join(LineTexts(lines), "\n")
  }

  /** The first part of a join starts the joined text. */
  lemma {:induction false} JoinStartsWithFirst(parts: seq<string>, sep: string)
    requires parts != []
    ensures parts[0] <= Join(parts, sep)
  {
  }

  /** The placeholder is shown exactly when the page has no lines: a numbered
      line starts with a decimal digit, the placeholder with a letter. */
  lemma {:induction false} DescriptionIsPlaceholder(lines: seq<NumberedLine>)
    ensures Description(lines) == NoEntries <==> lines == []
  {
    if lines != [] {
      var texts := LineTexts(lines);
      var first := LineText(lines[0]);
      JoinStartsWithFirst(texts, "\n");
      assert first == texts[0];
      var digit := Numerals.Show(lines[0].number, 10)[0];
      assert Numerals.IsDigit(digit, 10);
      assert first[0] == digit;
      assert Description(lines)[0] == digit;
      assert !Numerals.IsDigit(NoEntries[0], 10);
    }
  }

  /** The page bound the view keeps: page 0, or a page whose first entry exists. */
  predicate ValidPage(page: nat, chunk: nat, count: nat)
  {
    page == 0 || page * chunk < count
  }

  /** `previous`: step back one page unless already on the first. */
  function PreviousPage(page: nat): (r: nat)
    ensures r <= page && page - r <= 1
    ensures r == page <==> page == 0
  {
    if page > 0 then page - 1 else page
  }

  /** `next`: step forward one page only if the next page starts inside the list. */
  function NextPage(page: nat, chunk: nat, count: nat): (r: nat)
    ensures page <= r <= page + 1
    ensures r > page ==> r * chunk < count
  {
    if (page + 1) * chunk < count then page + 1 else page
  }

  /** The last page that shows something (0 for an empty list). */
  function LastPage(chunk: nat, count: nat): nat
    requires chunk > 0
  {
    if count == 0 then 0 else (count - 1) / chunk
  }

  /** A page starts inside the list exactly when it is no later than the last page. */
  lemma StartsInside(page: nat, chunk: nat, count: nat)
    requires chunk > 0 && count > 0
    ensures page * chunk < count <==> page <= LastPage(chunk, count)
  {
    var q, r := (count - 1) / chunk, (count - 1) % chunk;
    assert count - 1 == q * chunk + r;
    if page <= q {
      assert page * chunk <= q * chunk;
    } else {
      assert page >= q + 1;
      assert page * chunk >= (q + 1) * chunk;
    }
  }

  /** With a positive page size the page bound means: at most the last page. */
  lemma ValidPageIsBounded(page: nat, chunk: nat, count: nat)
    requires chunk > 0
    ensures ValidPage(page, chunk, count) <==> page <= LastPage(chunk, count)
  {
    if count > 0 {
      StartsInside(page, chunk, count);
    }
  }

  /** Both buttons keep the page bound. */
  lemma StepsKeepValidPage(page: nat, chunk: nat, count: nat)
    requires ValidPage(page, chunk, count)
    ensures ValidPage(PreviousPage(page), chunk, count)
    ensures ValidPage(NextPage(page, chunk, count), chunk, count)
  {
    if page > 0 {
      assert (page - 1) * chunk <= page * chunk;
    }
  }

  /** With a positive page size and a non-empty list, every page within the
      bound shows at least one entry. */
  lemma ValidPageShowsEntries(entries: seq<string>, page: nat, chunk: nat)
    requires chunk > 0 && |entries| > 0 && ValidPage(page, chunk, |entries|)
    ensures PageLines(entries, page, chunk) != []
  {
  }

  /** `next` never moves from a page that shows entries to one that shows none. */
  lemma NextKeepsEntriesShown(entries: seq<string>, page: nat, chunk: nat)
    requires PageLines(entries, page, chunk) != []
    ensures PageLines(entries, NextPage(page, chunk, |entries|), chunk) != []
  {
  }

  /** `next` stays put exactly on the last page and advances on every earlier one. */
  lemma NextStopsAtLastPage(page: nat, chunk: nat, count: nat)
    requires chunk > 0 && page <= LastPage(chunk, count)
    ensures NextPage(page, chunk, count) == page <==> page == LastPage(chunk, count)
    ensures page < LastPage(chunk, count) ==> NextPage(page, chunk, count) == page + 1
  {
    if count > 0 {
      StartsInside(page + 1, chunk, count);
    }
  }

  /** With a page size of 0 every page is empty, yet on a non-empty list
      "Next" advances on every press. */
  lemma ZeroChunkPages(entries: seq<string>, page: nat)
    requires |entries| > 0
    ensures PageLines(entries, page, 0) == []
    ensures NextPage(page, 0, |entries|) == page + 1
  {
  }

  /** The page after pressing "Previous" `k` times. */
  function PreviousTimes(page: nat, k: nat): nat
  {
    if k == 0 then page else PreviousTimes(PreviousPage(page), k - 1)
  }

  /** The page after pressing "Next" `k` times. */
  function NextTimes(page: nat, chunk: nat, count: nat, k: nat): nat
    decreases k
  {
    if k == 0 then page else NextTimes(NextPage(page, chunk, count), chunk, count, k - 1)
  }

  /** Pressing "Previous" repeatedly reaches the first page and stays there. */
  lemma {:induction false} PreviousTimesReachesFirst(page: nat, k: nat)
    ensures PreviousTimes(page, k) == if k <= page then page - k else 0
  {
    if k > 0 {
      PreviousTimesReachesFirst(PreviousPage(page), k - 1);
    }
  }

  /** Pressing "Next" repeatedly reaches the last page and stays there. */
  lemma {:induction false} NextTimesReachesLast(page: nat, chunk: nat, count: nat, k: nat)
    requires chunk > 0 && page <= LastPage(chunk, count)
    ensures NextTimes(page, chunk, count, k) == Min(page + k, LastPage(chunk, count))
    decreases k
  {
    if k > 0 {
      NextStopsAtLastPage(page, chunk, count);
      NextTimesReachesLast(NextPage(page, chunk, count), chunk, count, k - 1);
    }
  }

  /** `PagedEmbedView`: a fixed list of entries, a page size and the current page. */
  class PagedEmbedView {
    const entries: seq<string>
    const title: string
    const chunkSize: nat
    var page: nat

    ghost predicate Valid()
      reads this
    {
      ValidPage(page, chunkSize, |entries|)
    }

    /** A new view starts on the first page. */
    constructor (entries: seq<string>, title: string := "", chunkSize: nat := 10)
      ensures Valid()
      ensures this.entries == entries && this.title == title && this.chunkSize == chunkSize
      ensures page == 0
    {
      this.entries := entries;
      this.title := title;
      this.chunkSize := chunkSize;
      page := 0;
    }

    /** `get_embed`: the title, and the current page's numbered entries or the
        placeholder when the page is empty. */
    function GetEmbed(): (e: Embed)
      reads this
      ensures e.title == title
      ensures e.description == NoEntries <==> page * chunkSize >= |entries| || chunkSize == 0
    {
      var lines := PageLines(entries, page, chunkSize);
      DescriptionIsPlaceholder(lines);
      Embed(title, Description(lines))
    }

    /** The "Previous" button: step back a page if not on the first, then re-render. */
    method Previous() returns (shown: Embed)
      requires Valid()
      modifies this
      ensures Valid()
      ensures page == PreviousPage(old(page))
      ensures shown == GetEmbed()
    {
      StepsKeepValidPage(page, chunkSize, |entries|);
      if page > 0 {
        page := page - 1;
      }
      shown := GetEmbed();
    }

    /** The "Next" button: step forward a page if the next one starts inside the
        list, then re-render. */
    method Next() returns (shown: Embed)
      requires Valid()
      modifies this
      ensures Valid()
      ensures page == NextPage(old(page), chunkSize, |entries|)
      ensures shown == GetEmbed()
    {
      StepsKeepValidPage(page, chunkSize, |entries|);
      if (page + 1) * chunkSize < |entries| {
        page := page + 1;
      }
      shown := GetEmbed();
    }
  }
}
