# Thought checker highlighting and YouTube digest e-mail, in Dafny

This project models two small pieces of the "100 GenAI projects" collection.

- **Thought checker** (`projects/_001_thought_checker/index.py`):
  `highlight_text` takes a journal entry and the list of cognitive
  distortions a classifier found in it. Each distortion is a quote, the name
  of its thinking pattern and an explanation. The function rewrites the
  entry once per distortion, in list order, with Python's `str.replace`.
  Every occurrence of the quote becomes a `<span class='tooltip'>` that shows
  the quote and hides the pattern and the explanation for hovering.
- **YouTube summariser** (`projects/_008_youtube_summariser_email/email_template.py`):
  - `generate_summarised_video_section` turns one video and its summary into
    an HTML table cell;
  - `generate_email_template` puts the cells two to a table row and wraps the
    page in a `MIMEMultipart('related')` message with From and Subject
    headers;
  - `send_email` opens one SMTP session, logs in, and sends that same
    message object to each comma-separated subscriber in turn, setting a To
    header before each send.

Modules:

- `PyStr` (`py_str.dfy`) gives the CPython `str` operations the code calls:
  `replace` (including the empty pattern), `split(",")`, `''.join` and
  `strip()`. It also defines `in`, `count` and `sep.join` with a non-empty
  separator; the code never calls these, and they are the terms the
  contracts are stated in. `str.replace` is characterised as "join with
  `rep` the unique leftmost cut of the string at the pattern".
- `Highlighter` (`highlighter.dfy`) models `highlight_text`: a loop proved
  against a left fold of replacement steps.
- `Mime` (`mime.dfy`) is the message object, a class whose header list and
  parts are updated in place. `message[name] = value` appends a header; it
  does not replace one.
- `Digest` (`digest.dfy`) models the cell, the row-pairing loop and the
  message builder.
- `Mailer` (`mailer.dfy`) models `send_email`. The SMTP connection is a
  class that records what the relay sees: STARTTLS, the login attempt, each
  send attempt with the message as serialised at that moment, and the quit.
  How the relay answers is a parameter: whether it accepts the login, and
  how many sends it accepts before one raises.

The model keeps one behaviour of the code that may be unintended. The same
message object is reused for every recipient, and assigning `content['To']`
adds a header rather than replacing one. So the k-th e-mail carries the To
headers of all of the first k recipients
(`Mailer.SendCarriesEarlierRecipients`). After the call, the caller's
message keeps all of them (`Mailer.SendEmail`).

## Model

| member | source | states |
|---|---|---|
| PyStr.ReplaceAll | projects/_001_thought_checker/index.py:113 | `str.replace` as CPython's left-to-right scan; replacing a pattern by itself changes nothing (its meaning is stated by the rows below) |
| PyStr.ReplaceAllFirstMatch | projects/_001_thought_checker/index.py:113 | the first occurrence of the pattern is replaced first: the output starts with the text before it, then the replacement |
| PyStr.ReplaceAllSkipPrefix | projects/_001_thought_checker/index.py:113 | text before the first occurrence of a non-empty quote is copied unchanged |
| PyStr.ReplaceInsideReplacement | projects/_001_thought_checker/index.py:107-113 | when the second pattern first occurs inside the first replacement made by the first pattern, the second replacement lands at that spot |
| PyStr.ReplaceAllSpec | projects/_001_thought_checker/index.py:113 | for a non-empty quote, `replace` joins with the tooltip exactly the pieces of the leftmost, non-overlapping cut of the entry at the quote, and no other cut qualifies |
| PyStr.ReplaceAllEmptyPattern | projects/_001_thought_checker/index.py:113 | an empty quote puts the tooltip before every character of the entry and once at its end |
| PyStr.ReplaceAllAbsent | projects/_001_thought_checker/index.py:113 | a quote that does not occur leaves the entry unchanged |
| PyStr.ReplaceAllLength | projects/_001_thought_checker/index.py:113 | the result is longer by `count(quote) * (len(tooltip) - len(quote))` |
| PyStr.ReplaceAllChangesIffContains | projects/_001_thought_checker/index.py:113 | when the replacement is longer than the pattern, `replace` changes the text if and only if the pattern occurs in it |
| PyStr.CountPositiveIffContains | projects/_001_thought_checker/index.py:113 | the quote is counted at least once if and only if it occurs |
| PyStr.Split | projects/_008_youtube_summariser_email/email_template.py:75 | `split(",")` gives at least one piece, and re-joining the pieces with commas gives the subscriber string back |
| PyStr.SplitIsLeftmost | projects/_008_youtube_summariser_email/email_template.py:75 | `split(",")` cuts at every comma, left to right |
| PyStr.SplitOnChar | projects/_008_youtube_summariser_email/email_template.py:75 | splitting at a one-character separator gives one piece more than it occurs, and no piece contains it |
| PyStr.Strip | projects/_008_youtube_summariser_email/email_template.py:78 | `strip()` returns a slice of its input with only whitespace outside it, and the slice neither starts nor ends with whitespace |
| PyStr.TrimStart | projects/_008_youtube_summariser_email/email_template.py:78 | the leading half of `strip()`: drops exactly the leading whitespace |
| PyStr.TrimEnd | projects/_008_youtube_summariser_email/email_template.py:78 | the trailing half of `strip()`: drops exactly the trailing whitespace |
| PyStr.StripUnchanged | projects/_008_youtube_summariser_email/email_template.py:78 | an address with no whitespace at its ends is left as it is |
| PyStr.StripLeadingSpace | projects/_008_youtube_summariser_email/email_template.py:78 | the space after a comma is dropped |
| PyStr.Concat | projects/_008_youtube_summariser_email/email_template.py:33-38 | `''.join` is as long as its parts together |
| PyStr.ConcatContains | projects/_008_youtube_summariser_email/email_template.py:33-38 | every part occurs in `''.join(parts)` |
| PyStr.ConcatAppend | projects/_008_youtube_summariser_email/email_template.py:33-38 | `''.join` of two lists joined is the two joins concatenated |
| Highlighter.Tooltip | projects/_001_thought_checker/index.py:111-112 | the tooltip starts with the highlight tag followed by the quote; it contains the quote, the thinking pattern and the explanation; it is longer than the quote by the pattern, the explanation and a fixed non-empty markup |
| Highlighter.TooltipShowsFields | projects/_001_thought_checker/index.py:112 | after the quote come `<span class="tooltiptext"><strong>`, the thinking pattern, `</strong>: `, the explanation and `</span></span>`, and nothing else |
| Highlighter.HighlightText | projects/_001_thought_checker/index.py:107-115 | the loop returns the entry rewritten by each distortion in list order, each applied to the previous result; with no distortions the entry is returned unchanged |
| Highlighter.Step | projects/_001_thought_checker/index.py:113 | one distortion changes the text if and only if its quote occurs in it |
| Highlighter.Highlighted | projects/_001_thought_checker/index.py:107-113 | the distortions are applied in list order, each to the previous result; an entry that holds none of the quotes comes back unchanged |
| Highlighter.HighlightedAppend | projects/_001_thought_checker/index.py:107-113 | highlighting with `a + b` is highlighting with `a` and then with `b` |
| Highlighter.HighlightedLast | projects/_001_thought_checker/index.py:107-113 | the last distortion is applied last, to the text all earlier ones produced |
| Highlighter.AbsentQuoteIsSkipped | projects/_001_thought_checker/index.py:107-113 | a distortion whose quote is absent from the text it meets can be removed from the list without changing the result |
| Highlighter.StepInsertsTooltip | projects/_001_thought_checker/index.py:111-113 | when the quote occurs, the tooltip markup appears in the result |
| Highlighter.LaterQuoteRewritesEarlierMarkup | projects/_001_thought_checker/index.py:107-113 | take the first occurrence of the earlier quote. If the later quote first occurs inside the tooltip inserted there, the later tooltip is inserted at that spot: the result starts with the text before the earlier quote, the earlier tooltip up to that offset, and then the later tooltip. The later step also changes the text |
| Highlighter.LabelingExample | projects/_001_thought_checker/index.py:107-115 | "I am a failure." with the quote "a failure" becomes "I am " + tooltip + "." |
| Mime.Values | projects/_008_youtube_summariser_email/email_template.py:57-59 | the values of the headers with one name, never more than the headers |
| Mime.ValuesAppend | projects/_008_youtube_summariser_email/email_template.py:58-59 | the values from a concatenated header list are the values of each part, in order |
| Mime.Message.SetItem | projects/_008_youtube_summariser_email/email_template.py:58 | assigning a header appends it and leaves the parts alone |
| Mime.Message.Attach | projects/_008_youtube_summariser_email/email_template.py:60 | attaching a part appends it and leaves the headers alone |
| Mime.Message.MultipartRelated | projects/_008_youtube_summariser_email/email_template.py:57 | a new multipart/related message has its Content-Type and MIME-Version headers and no parts |
| Digest.SummarisedVideoSection | projects/_008_youtube_summariser_email/email_template.py:7-19 | the cell contains the thumbnail URL, the title, the rendered summary and the video's watch URL |
| Digest.FilledSlots | projects/_008_youtube_summariser_email/email_template.py:8-18 | every value placed in the template occurs in the filled-in text |
| Digest.Pairs | projects/_008_youtube_summariser_email/email_template.py:29-31 | the grouping `range(0, n, 2)` with `[i:i+2]` makes; every group holds one or two sections |
| Digest.PairsShape | projects/_008_youtube_summariser_email/email_template.py:29-31 | there are `ceil(n/2)` groups and group `k` is the slice `[2k:2k+2]`, clamped at the end |
| Digest.PairsSizes | projects/_008_youtube_summariser_email/email_template.py:29-31 | every row but the last holds two cells; the last holds one if and only if the count is odd; there are no rows if and only if there are no cells |
| Digest.RowContentsKeepOrder | projects/_008_youtube_summariser_email/email_template.py:29-38 | the rows' contents, joined in order, are `''.join(summarised_sections)` |
| Digest.PairsKeepSections | projects/_008_youtube_summariser_email/email_template.py:29-31 | laying the groups end to end gives back the sections, so none is dropped, repeated or moved |
| Digest.TableRowsOf | projects/_008_youtube_summariser_email/email_template.py:29-35 | the rows the loop builds: one per two sections, rounding up |
| Digest.TableRows | projects/_008_youtube_summariser_email/email_template.py:26-35 | the loop builds `ceil(n/2)` rows, row `k` being `<tr>` + the join of cells `2k` and `2k+1` + `</tr>` |
| Digest.PageHoldsEverySection | projects/_008_youtube_summariser_email/email_template.py:29-54 | every summarised section occurs in the HTML page built from the rows |
| Digest.GenerateEmailTemplate | projects/_008_youtube_summariser_email/email_template.py:21-62 | a fresh message whose headers are the multipart ones, then From, then Subject, and whose only part is the HTML page holding the rows |
| Digest.TemplateHeaders | projects/_008_youtube_summariser_email/email_template.py:57-59 | the built message names the sender once, the subject once and no recipient |
| Mailer.Recipients | projects/_008_youtube_summariser_email/email_template.py:75-78 | the stripped pieces of `subscribers.split(",")`: no address starts or ends with whitespace |
| Mailer.RecipientsShape | projects/_008_youtube_summariser_email/email_template.py:75-78 | one recipient per comma plus one, none containing a comma or starting or ending with whitespace; an empty subscriber string gives one empty recipient |
| Mailer.SmtpServer.Connect | projects/_008_youtube_summariser_email/email_template.py:70 | a new connection to the given host and port has recorded nothing |
| Mailer.SmtpServer.StartTls | projects/_008_youtube_summariser_email/email_template.py:71 | records the STARTTLS |
| Mailer.SmtpServer.Login | projects/_008_youtube_summariser_email/email_template.py:74 | records the login attempt and reports whether the relay accepted it |
| Mailer.SmtpServer.SendMail | projects/_008_youtube_summariser_email/email_template.py:80 | records the send with the message as serialised now; it succeeds while the relay still accepts sends |
| Mailer.SmtpServer.Quit | projects/_008_youtube_summariser_email/email_template.py:87 | records the quit |
| Mailer.Attempted | projects/_008_youtube_summariser_email/email_template.py:73-84 | the number of sends attempted is at most the number of recipients and at most one more than the relay accepts, and zero when the login is refused |
| Mailer.Sends | projects/_008_youtube_summariser_email/email_template.py:77-80 | the `k`-th attempted send is from the sender to the `k`-th recipient |
| Mailer.Session | projects/_008_youtube_summariser_email/email_template.py:70-87 | the relay sees STARTTLS, the login, one event per attempted send, then the quit |
| Mailer.SendEmail | projects/_008_youtube_summariser_email/email_template.py:65-87 | connects to smtp.gmail.com:587 and records exactly the session trace; the caller's message gains one To header per attempted send, in order, and keeps its parts |
| Mailer.SendEach | projects/_008_youtube_summariser_email/email_template.py:75-84 | after a successful login, the loop's trace is the closed-form sends to the stripped pieces, stopping at the first refused one, and the message gains the To headers of exactly the recipients tried |
| Mailer.SendStep | projects/_008_youtube_summariser_email/email_template.py:78-80 | one iteration (append the To header, send the message as it is now) extends the headers and the trace by exactly one recipient |
| Mailer.SentToSends | projects/_008_youtube_summariser_email/email_template.py:77-80 | the first `n` sends go to the first `n` recipients, in order |
| Mailer.SessionSendsPrefix | projects/_008_youtube_summariser_email/email_template.py:73-84 | the addresses sent to are a prefix of the recipients: none after a refused login, all when every send is accepted, otherwise up to the first refused one |
| Mailer.SessionStopsAtFirstRefusal | projects/_008_youtube_summariser_email/email_template.py:77-84 | every attempted send but the last is accepted, and if fewer than all were attempted after a successful login, the last was refused |
| Mailer.SessionClosesOnce | projects/_008_youtube_summariser_email/email_template.py:86-87 | on every path the connection is closed exactly once, as the last event |
| Mailer.SendCarriesEarlierRecipients | projects/_008_youtube_summariser_email/email_template.py:77-80 | the `k`-th send carries the message's earlier To headers followed by those of recipients `0..k` |
| Mailer.ToValues | projects/_008_youtube_summariser_email/email_template.py:79 | the To values of the appended headers are the recipients, in order |
| Mailer.TwoSubscribers | projects/_008_youtube_summariser_email/email_template.py:75-80 | `"a, b"` gives the recipients `a` and `b`, and a relay that accepts both sends receives both, in order |

## Left out

- The Streamlit page of the thought checker: forms, session state, analytics events, and the call to the language model that produces the distortions. The `gpt_api_calls` module is not part of this model.
- The `st.markdown` call that injects the tooltip CSS (index.py line 106). It is a display side effect with no effect on the returned string.
- `distortions.get("thinking_patterns")` and the `.get` calls on each record. The model takes a list of complete records. A missing key makes Python fail or print "None", and that path is not modelled.
- `markdown2.markdown` is a function parameter of `Digest.SummarisedVideoSection`, because it is outside the core.
- `message.as_string()` is modelled as a snapshot of the headers and parts. The MIME wire format is not modelled: boundaries, encodings and the charset of `MIMEText`.
- Mailer.SendEmail: in CPython the first `as_string()` on a multipart message with no boundary generates one and writes it into the message's own Content-Type header (`multipart/related; boundary="..."`), through `Message.set_boundary`. The model reads `as_string()` as side-effect free, so its Content-Type stays `multipart/related`: in every `Snapshot` the relay sees, and in `content.headers` after the call. This holds for `Mailer.SendEach` and `Mime.Message.AsString` as well.
- Header names are compared exactly. Python's `email` package compares them without regard to case.
- The SMTP password comes from Streamlit's secret store. In the model it is a parameter of `Mailer.SendEmail`.
- Network I/O is not modelled. `smtplib.SMTP(...)` and `starttls()` run outside the `try` block, so their failures propagate to the caller; the model assumes they succeed. Login and send failures are modelled as the relay's answers.
- Mailer.SmtpServer.Quit: the quit is assumed to succeed. In smtplib, a login or send that fails because the connection dropped (or on a 421 reply) closes the socket before raising. The `quit()` in the `finally` block then raises `SMTPServerDisconnected`, and that exception escapes `send_email`. This path is not modelled: `Mailer.SendEmail` always returns normally.
- The `print` calls and the text of the caught exception are not modelled.
- The `subject` argument of `send_email` is accepted and never used. The model keeps it as an unused parameter.
- `PyStr.Split` requires a non-empty separator, where CPython raises `ValueError` for an empty one. The code only ever splits at `","`.
