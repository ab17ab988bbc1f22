/** include/zxformat.h: showing a text page by page. */
module Paging {
  import opened Numerals
  import opened DigitText

  /** How many pages a text takes: a quotient cut to eight bits, one more for a last page that is not full. */
  function PageCount(length: nat, room: nat): byte {
    if room == 0 then 0
    else if length % room > 0 then ((length / room) % 256 + 1) % 256
    else (length / room) % 256
  }

  /** What a page shows. */
  function Page(text: string, room: nat, idx: nat): (page: string)
    ensures |page| <= room
  {
    var count := PageCount(|text|, room);
    if room == 0 || idx >= count then ""
    else
      PageInside(|text|, room, idx);
      MulMono(0, idx, room);
      if |text| % room > 0 && idx == count - 1 then text[idx * room..idx * room + |text| % room]
      else text[idx * room..idx * room + room]
  }

  lemma PageInside(length: nat, room: nat, idx: nat)
    requires room > 0 && idx < PageCount(length, room)
    ensures 0 <= length / room && 0 <= length % room < room
    ensures length % room > 0 && idx == PageCount(length, room) - 1 ==> idx * room + length % room <= length
    ensures !(length % room > 0 && idx == PageCount(length, room) - 1) ==> idx * room + room <= length
  {
    DivIdentity(length, room);
    var q := length / room;
    if length % room > 0 && idx == PageCount(length, room) - 1 {
      MulMono(idx, q, room);
    } else {
      MulMono(idx + 1, q, room);
    }
  }

  method PageStringExt(outValue: array<char>, inValue: string, pageIdx: byte) returns (pageCount: byte)
    requires 1 <= outValue.Length < 0x10000 && |inValue| < 0x10000
    modifies outValue
    ensures pageCount == PageCount(|inValue|, outValue.Length - 1)
    ensures outValue[..] == Filled(Page(inValue, outValue.Length - 1, pageIdx), outValue.Length)
  {
    forall k | 0 <= k < outValue.Length {
      outValue[k] := '\0';
    }
    var outValueLen := outValue.Length - 1;
    if outValueLen == 0 {
      return 0;
    }
    if |inValue| == 0 {
      NoPages(outValueLen);
      return 0;
    }
    DivIdentity(|inValue|, outValueLen);
    pageCount := (|inValue| / outValueLen) % 256;
    var lastChunkLen := |inValue| % outValueLen;
    if lastChunkLen > 0 {
      pageCount := (pageCount + 1) % 256;
    }
    if pageIdx < pageCount {
      PageInside(|inValue|, outValueLen, pageIdx);
      MulMono(0, pageIdx, outValueLen);
      var size := if lastChunkLen > 0 && pageIdx == pageCount - 1 then lastChunkLen else outValueLen;
      CopyPage(outValue, inValue[pageIdx * outValueLen..pageIdx * outValueLen + size]);
    }
  }

  lemma NoPages(room: nat)
    requires room > 0
    ensures PageCount(0, room) == 0
  {
  }

  method CopyPage(outValue: array<char>, page: string)
    requires |page| < outValue.Length
    requires forall k | 0 <= k < outValue.Length :: outValue[k] == '\0'
    modifies outValue
    ensures outValue[..] == Filled(page, outValue.Length)
  {
    forall k | 0 <= k < |page| {
      outValue[k] := page[k];
    }
  }

  /** The length of the text is cut to 16 bits. */
  method PageString(outValue: array<char>, inValue: string, pageIdx: byte) returns (pageCount: byte)
    requires 1 <= outValue.Length < 0x10000
    modifies outValue
    ensures var text := inValue[..|inValue| % 0x10000];
            && pageCount == PageCount(|text|, outValue.Length - 1)
            && outValue[..] == Filled(Page(text, outValue.Length - 1, pageIdx), outValue.Length)
  {
    pageCount := PageStringExt(outValue, inValue[..|inValue| % 0x10000], pageIdx);
  }

  // ---------------------------------------------------------------- reading all pages

  /** The first n pages one after the other. */
  function Pages(text: string, room: nat, n: nat): string {
    if n == 0 then "" else Pages(text, room, n - 1) + Page(text, room, n - 1)
  }

  lemma {:induction false} FullPages(text: string, room: nat, n: nat)
    requires room > 0
    requires n < PageCount(|text|, room) || (n == PageCount(|text|, room) && |text| % room == 0)
    ensures 0 <= n * room <= |text| && Pages(text, room, n) == text[..n * room]
  {
    if n > 0 {
      FullPages(text, room, n - 1);
      PageInside(|text|, room, n - 1);
      assert n * room == (n - 1) * room + room;
      assert text[..n * room] == text[..(n - 1) * room] + text[(n - 1) * room..n * room];
    }
  }

  /** How many pages are needed, without the cut to eight bits. */
  function PagesNeeded(length: nat, room: nat): nat
    requires room > 0
  {
    DivIdentity(length, room);
    length / room + if length % room > 0 then 1 else 0
  }

  lemma {:induction false} PagesLength(text: string, room: nat, n: nat)
    ensures |Pages(text, room, n)| <= n * room
  {
    if n > 0 {
      PagesLength(text, room, n - 1);
      assert n * room == (n - 1) * room + room;
    }
  }

  lemma PagesEnough(text: string, room: nat)
    requires room > 0 && PagesNeeded(|text|, room) <= 255
    ensures Pages(text, room, PageCount(|text|, room)) == text
  {
    hide Pages;
    var length, count := |text|, PageCount(|text|, room);
    DivIdentity(length, room);
    var q := length / room;
    if length % room > 0 {
      FullPages(text, room, count - 1);
      LastPage(text, room, q, length % room);
    } else {
      FullPages(text, room, count);
      assert text[..q * room] == text;
    }
  }

  lemma LastPage(text: string, room: nat, q: nat, r: nat)
    requires room > 0 && 0 <= q * room && |text| == q * room + r && 0 < r < room && q < 255
    requires |text| / room == q && |text| % room == r
    requires Pages(text, room, q) == text[..q * room]
    ensures Pages(text, room, q + 1) == text
  {
    assert text[q * room..q * room + r] == text[q * room..];
    assert text[..q * room] + text[q * room..] == text;
  }

  /** All pages together are the text exactly when no more than 255 are needed. */
  lemma PagesWhole(text: string, room: nat)
    requires room > 0
    ensures Pages(text, room, PageCount(|text|, room)) == text <==> PagesNeeded(|text|, room) <= 255
  {
    hide Pages, PageCount;
    if PagesNeeded(|text|, room) <= 255 {
      PagesEnough(text, room);
    } else {
      var count := PageCount(|text|, room);
      DivIdentity(|text|, room);
      PagesLength(text, room, count);
      MulMono(count, 255, room);
      TooManyPages(|text|, |text| / room, |text| % room, room);
    }
  }

  lemma PageCountNeeded(length: nat, room: nat)
    requires room > 0 && PagesNeeded(length, room) <= 255
    ensures PageCount(length, room) == PagesNeeded(length, room)
  {
    DivIdentity(length, room);
  }

  lemma PageLength(text: string, room: nat, idx: nat)
    requires room > 0 && idx < PageCount(|text|, room)
    ensures |Page(text, room, idx)| ==
            if |text| % room > 0 && idx == PageCount(|text|, room) - 1 then |text| % room else room
  {
    hide PageCount;
    PageInside(|text|, room, idx);
    MulMono(0, idx, room);
  }

  /** While no more than 255 pages are needed, that many are counted; each but the last is full, and the last
      is not empty. */
  lemma PageSizes(text: string, room: nat, idx: nat)
    requires room > 0 && PagesNeeded(|text|, room) <= 255
    ensures PageCount(|text|, room) == PagesNeeded(|text|, room)
    ensures idx + 1 < PageCount(|text|, room) ==> |Page(text, room, idx)| == room
    ensures idx < PageCount(|text|, room) <==> |Page(text, room, idx)| > 0
  {
    hide PageCount, PagesNeeded;
    PageCountNeeded(|text|, room);
    if idx < PageCount(|text|, room) {
      PageLength(text, room, idx);
    }
  }

  lemma TooManyPages(length: nat, q: nat, r: nat, room: nat)
    requires length == q * room + r && r < room && q + (if r > 0 then 1 else 0) > 255
    ensures length > 255 * room
  {
  }
}
