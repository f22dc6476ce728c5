/** The digest builder of the YouTube summariser: one HTML table cell per
    summarised video, two cells per table row in input order, and the whole
    page wrapped in a multipart message with its From and Subject headers. */
module Digest {
  import opened PyStr
  import opened Mime

  /** A video as the summariser passes it in. */
  datatype Video = Video(videoId: string, title: string, thumbnail: string)

  const CellOpen: string :=
    "\n      <td style=\"width: 50%; padding: 10px; box-sizing: border-box; vertical-align: top;\">\n          <img src=\""
  const CellAfterThumbnail: string :=
    "\" alt=\"thumbnail\" style=\"width: 100%;\">\n          <h3>\U{1F449} <a href=\"#\" target=\"_blank\">"
  const CellAfterTitle: string :=
    "</a></h3>\n          <p>\U{1F916} AI-Generated actionables from video:</p>\n          <div style=\"font-size: 10px;\">\n            "
  /** The link to the original video is this prefix followed by its id. */
  const WatchUrl: string := "https://www.youtube.com/watch?v="
  const CellClose: string :=
    "\" target=\"_blank\">\U{1F440} Watch original Video</a>\n      </td>\n  "

  /** The four values of a section template each occur in the filled-in
      text. */
  lemma FilledSlots(a: string, x: string, b: string, y: string, c: string, z: string, d: string, w: string, e: string)
    ensures Contains(a + x + b + y + c + z + d + w + e, x)
    ensures Contains(a + x + b + y + c + z + d + w + e, y)
    ensures Contains(a + x + b + y + c + z + d + w + e, z)
    ensures Contains(a + x + b + y + c + z + d + w + e, w)
  {
    var r := a + x + b + y + c + z + d + w + e;
    ContainsMiddle(a, x, b + y + c + z + d + w + e);
    assert r == a + x + (b + y + c + z + d + w + e);
    ContainsMiddle(a + x + b, y, c + z + d + w + e);
    assert r == (a + x + b) + y + (c + z + d + w + e);
    ContainsMiddle(a + x + b + y + c, z, d + w + e);
    assert r == (a + x + b + y + c) + z + (d + w + e);
    ContainsMiddle(a + x + b + y + c + z + d, w, e);
    assert r == (a + x + b + y + c + z + d) + w + e;
  }

  /** `generate_summarised_video_section(video, summary)`, with
      `markdown2.markdown` passed in as `markdown`: a single table cell that
      shows the thumbnail, the title, the rendered summary and the link to
      the video on YouTube. */
  function SummarisedVideoSection(video: Video, summary: string, markdown: string -> string): (r: string)
    ensures Contains(r, video.thumbnail)
    ensures Contains(r, video.title)
    ensures Contains(r, markdown(summary))
    ensures Contains(r, WatchUrl + video.videoId)
  {
    var html := markdown(summary);
    var linkOpen := "\n          </div>\n          <a href=\"";
    FilledSlots(CellOpen, video.thumbnail, CellAfterThumbnail, video.title, CellAfterTitle, html,
                linkOpen, WatchUrl + video.videoId, CellClose);
    CellOpen + video.thumbnail + CellAfterThumbnail + video.title + CellAfterTitle + html
      + linkOpen + (WatchUrl + video.videoId) + CellClose
  }

  function Min(a: int, b: int): int {
    if a <= b then a else b
  }

  /** The fragments grouped as `range(0, n, 2)` with `fragments[i:i+2]`
      groups them: every group holds one or two fragments. */
  function Pairs(xs: seq<string>): (r: seq<seq<string>>)
    ensures forall k :: 0 <= k < |r| ==> 1 <= |r[k]| <= 2
    decreases |xs|
  {
    if xs == [] then []
    else if |xs| <= 2 then [xs]
    else [xs[..2]] + Pairs(xs[2..])
  }

  /** Group `k` is the slice starting at `2k`, clamped at the end: there are
      `ceil(n/2)` groups. */
  lemma {:induction false} PairsShape(xs: seq<string>)
    ensures |Pairs(xs)| == (|xs| + 1) / 2
    ensures forall k :: 0 <= k < |Pairs(xs)| ==> Pairs(xs)[k] == xs[2 * k..Min(2 * k + 2, |xs|)]
    decreases |xs|
  {
    if |xs| > 2 {
      PairsShape(xs[2..]);
      var p := Pairs(xs);
      var q := Pairs(xs[2..]);
      assert p == [xs[..2]] + q;
      forall k | 0 <= k < |p|
        ensures p[k] == xs[2 * k..Min(2 * k + 2, |xs|)]
      {
        if k > 0 {
          assert p[k] == q[k - 1];
          var lo, hi := 2 * (k - 1), Min(2 * (k - 1) + 2, |xs| - 2);
          assert hi + 2 == Min(2 * k + 2, |xs|);
          forall m | 0 <= m < hi - lo
            ensures xs[2..][lo..hi][m] == xs[lo + 2..hi + 2][m]
          {
            assert xs[2..][lo..hi][m] == xs[2..][lo + m] == xs[lo + 2 + m];
          }
          assert xs[2..][lo..hi] == xs[lo + 2..hi + 2];
        }
      }
    }
  }

  /** Every group but the last holds two fragments; the last holds one
      exactly when the number of fragments is odd; no fragments, no
      groups. */
  lemma PairsSizes(xs: seq<string>)
    ensures Pairs(xs) == [] <==> xs == []
    ensures forall k :: 0 <= k < |Pairs(xs)| - 1 ==> |Pairs(xs)[k]| == 2
    ensures |Pairs(xs)| > 0 ==> (|Pairs(xs)[|Pairs(xs)| - 1]| == 1 <==> |xs| % 2 == 1)
  {
    PairsShape(xs);
  }

  /** The groups laid end to end. */
  function Flatten(gs: seq<seq<string>>): seq<string>
    decreases |gs|
  {
    if gs == [] then [] else gs[0] + Flatten(gs[1..])
  }

  /** Laying the groups end to end gives back the sections: none is
      dropped, repeated or moved. */
  lemma {:induction false} PairsKeepSections(xs: seq<string>)
    ensures Flatten(Pairs(xs)) == xs
    decreases |xs|
  {
    if |xs| > 2 {
      PairsKeepSections(xs[2..]);
      var p := Pairs(xs);
      assert p == [xs[..2]] + Pairs(xs[2..]);
      assert p[1..] == Pairs(xs[2..]);
      assert xs == xs[..2] + xs[2..];
    } else if xs != [] {
      assert Pairs(xs) == [xs];
      assert Flatten([xs]) == xs + Flatten([]);
    }
  }

  /** The inner content of the table rows, in order. */
  function RowContents(xs: seq<string>): seq<string> {
    var p := Pairs(xs);
    seq(|p|, k requires 0 <= k < |p| => Concat(p[k]))
  }

  /** A table row around the given content. */
  function Row(content: string): string {
    "<tr>" + content + "</tr>"
  }

  /** The rows the loop of `generate_email_template` builds: one per two
      fragments, rounding up. */
  function TableRowsOf(xs: seq<string>): (r: seq<string>)
    ensures |r| == (|xs| + 1) / 2
  {
    PairsShape(xs);
    var c := RowContents(xs);
    seq(|c|, k requires 0 <= k < |c| => Row(c[k]))
  }

  /** Reading the rows' contents in order gives back `''.join(fragments)`. */
  lemma {:induction false} RowContentsKeepOrder(xs: seq<string>)
    ensures Concat(RowContents(xs)) == Concat(xs)
    decreases |xs|
  {
    if |xs| > 2 {
      RowContentsKeepOrder(xs[2..]);
      var c := RowContents(xs);
      var c' := RowContents(xs[2..]);
      assert Pairs(xs) == [xs[..2]] + Pairs(xs[2..]);
      assert c == [Concat(xs[..2])] + c';
      assert c[1..] == c';
      assert xs == xs[..2] + xs[2..];
      ConcatAppend(xs[..2], xs[2..]);
    } else if xs != [] {
      assert RowContents(xs) == [Concat(xs)];
    }
  }

  /** The loop of `generate_email_template`: one `<tr>` per pair of
      fragments, the last one alone when their number is odd. */
  method TableRows(sections: seq<string>) returns (rows: seq<string>)
    ensures |rows| == (|sections| + 1) / 2
    ensures forall k :: 0 <= k < |rows| ==>
      rows[k] == "<tr>" + Concat(sections[2 * k..Min(2 * k + 2, |sections|)]) + "</tr>"
    ensures rows == TableRowsOf(sections)
  {
    rows := [];
    var i := 0;
    while i < |sections|
      invariant 0 <= i <= |sections| + 1 && i == 2 * |rows|
      invariant forall k :: 0 <= k < |rows| ==>
        rows[k] == "<tr>" + Concat(sections[2 * k..Min(2 * k + 2, |sections|)]) + "</tr>"
    {
      var rowSections := sections[i..Min(i + 2, |sections|)];
      rows := rows + ["<tr>" + Concat(rowSections) + "</tr>"];
      i := i + 2;
    }
    PairsShape(sections);
  }

  const BannerUrl: string := "https://i.imgur.com/wUoeb87.gif"
  const BodyOpen: string :=
    "\n    <html>\n        <body style=\"font-family: 'Roboto', sans-serif; font-size: 16px;\">\n            <img src=\""
    + BannerUrl
    + "\" alt=\"Banner Image\" style=\"width: 100%;\"><br>\n            <p>These are the summaries of videos published by your fave channels this month!</p>\n            <table width=\"100%\" cellspacing=\"0\" cellpadding=\"0\" style=\"border-collapse: collapse;\">\n                "
  const BodyClose: string :=
    "\n            </table>\n            <footer>\n                <p>Sign up to <a href=\"fairylightsai.substack.com\" target=\"_blank\">100GenAI project newsletter</a> to learn how to build AI projects like this! \U{2728}\U{1F916}\U{1F9EA}</p>\n            </footer>\n        </body>\n    </html>\n    "

  /** The HTML page: the banner, the table holding `allRows`, the
      footer. */
  function HtmlBody(allRows: string): string {
    BodyOpen + allRows + BodyClose
  }

  /** Every summarised section ends up in the HTML page, inside the row
      that holds its pair. */
  lemma PageHoldsEverySection(sections: seq<string>)
    ensures forall i :: 0 <= i < |sections| ==> Contains(HtmlBody(Concat(TableRowsOf(sections))), sections[i])
  {
    forall i | 0 <= i < |sections|
      ensures Contains(HtmlBody(Concat(TableRowsOf(sections))), sections[i])
    {
      SectionInPage(sections, i);
    }
  }

  lemma SectionInPage(xs: seq<string>, i: int)
    requires 0 <= i < |xs|
    ensures Contains(HtmlBody(Concat(TableRowsOf(xs))), xs[i])
  {
    PairsShape(xs);
    var k := i / 2;
    var g := Pairs(xs)[k];
    assert g == xs[2 * k..Min(2 * k + 2, |xs|)];
    assert g[i - 2 * k] == xs[i];
    ConcatContains(g, i - 2 * k);
    var rows := TableRowsOf(xs);
    assert rows[k] == "<tr>" + Concat(g) + "</tr>";
    ContainsMiddle("<tr>", Concat(g), "</tr>");
    ContainsTransitive(rows[k], Concat(g), xs[i]);
    ConcatContains(rows, k);
    ContainsTransitive(Concat(rows), rows[k], xs[i]);
    ContainsMiddle(BodyOpen, Concat(rows), BodyClose);
    ContainsTransitive(HtmlBody(Concat(rows)), Concat(rows), xs[i]);
  }

  /** `generate_email_template(sender_email, subject, summarised_sections)`:
      a fresh multipart message whose headers are the multipart ones, then
      From, then Subject (no To yet), with one HTML part holding the
      table. */
  method GenerateEmailTemplate(senderEmail: string, subject: string, sections: seq<string>)
    returns (message: Message)
    ensures fresh(message)
    ensures message.headers == MultipartRelatedHeaders + [Header("From", senderEmail), Header("Subject", subject)]
    ensures message.parts == [HtmlText(HtmlBody(Concat(TableRowsOf(sections))))]
  {
    var rows := TableRows(sections);
    var allRows := Concat(rows);
    var htmlBody := HtmlBody(allRows);
    message := new Message.MultipartRelated();
    message.SetItem("From", senderEmail);
    message.SetItem("Subject", subject);
    message.Attach(HtmlText(htmlBody));
  }

  /** The header list the template starts with names the sender and the
      subject once each, in that order, and no recipient. */
  lemma TemplateHeaders(senderEmail: string, subject: string)
    ensures Values(MultipartRelatedHeaders + [Header("From", senderEmail), Header("Subject", subject)], "From") == [senderEmail]
    ensures Values(MultipartRelatedHeaders + [Header("From", senderEmail), Header("Subject", subject)], "Subject") == [subject]
    ensures Values(MultipartRelatedHeaders + [Header("From", senderEmail), Header("Subject", subject)], "To") == []
  {
    var tail := [Header("From", senderEmail), Header("Subject", subject)];
    ValuesAppend(MultipartRelatedHeaders, tail, "From");
    ValuesAppend(MultipartRelatedHeaders, tail, "Subject");
    ValuesAppend(MultipartRelatedHeaders, tail, "To");
    var m := MultipartRelatedHeaders;
    assert m[1..][1..] == [] && tail[1..][1..] == [];
  }
}
