/**
 * The text logic of the browser client (static/js/main.js): the HTML escaper, the
 * message box's keyboard editing (Ctrl+Enter newline, Enter submit, Tab indent),
 * the submit guard that trims the text, and the size and type guards of the three
 * image-upload paths (file picker, paste, drag and drop). The socket, `fetch` and
 * the DOM are outside: what the handlers emit and show is returned to the caller.
 */
module Client {
  import opened Wrappers
  import opened Text

  // ---------------------------------------------------------------------------
  // escapeHtml

  /** `s.replace(/c/g, rep)`: every occurrence of `c`, left to right, replaced by `rep`. */
  function ReplaceAll(s: string, c: char, rep: string): (r: string)
    ensures forall i :: 0 <= i < |r| ==> (r[i] in s && r[i] != c) || r[i] in rep
  {
    if s == [] then []
    else
      var head := if s[0] == c then rep else [s[0]];
      var tail := ReplaceAll(s[1..], c, rep);
      assert forall i :: 0 <= i < |tail| ==> (tail[i] in s && tail[i] != c) || tail[i] in rep by {
        forall i | 0 <= i < |tail| && tail[i] in s[1..] ensures tail[i] in s {
          var j :| 0 <= j < |s[1..]| && s[1..][j] == tail[i];
          assert s[j + 1] == tail[i];
        }
      }
      head + tail
  }

  /** Replacing distributes over concatenation. */
  lemma {:induction false} ReplaceAllAppend(a: string, b: string, c: char, rep: string)
    ensures ReplaceAll(a + b, c, rep) == ReplaceAll(a, c, rep) + ReplaceAll(b, c, rep)
  {
    if a == [] {
      assert a + b == b;
    } else {
      assert (a + b)[0] == a[0] && (a + b)[1..] == a[1..] + b;
      ReplaceAllAppend(a[1..], b, c, rep);
    }
  }

  /** Replacing a character the text does not hold changes nothing. */
  lemma {:induction false} ReplaceAllAbsent(s: string, c: char, rep: string)
    requires c !in s
    ensures ReplaceAll(s, c, rep) == s
  {
    if s != [] {
      assert c !in s[1..];
      ReplaceAllAbsent(s[1..], c, rep);
    }
  }

  /**
   * `escapeHtml(unsafe)`: the five `replace` calls in the order the client makes them, `&` first.
   * The output holds none of `<`, `>`, `"` and `'`.
   */
  function EscapeHtml(s: string): (r: string)
    ensures forall i :: 0 <= i < |r| ==> r[i] != '<' && r[i] != '>' && r[i] != '"' && r[i] != '\''
  {
    var amp := ReplaceAll(s, '&', "&amp;");
    var lt := ReplaceAll(amp, '<', "&lt;");
    var gt := ReplaceAll(lt, '>', "&gt;");
    var quot := ReplaceAll(gt, '"', "&quot;");
    ReplaceAll(quot, '\'', "&#039;")
  }

  /** The entity each special character stands for; any other character stands for itself. */
  function EscapeChar(c: char): string
  {
    match c
    case '&' => "&amp;"
    case '<' => "&lt;"
    case '>' => "&gt;"
    case '"' => "&quot;"
    case '\'' => "&#039;"
    case _ => [c]
  }

  /** The reference escaper: each character replaced by its entity, independently of the others. */
  function EscapeEach(s: string): string
  {
    if s == [] then [] else EscapeChar(s[0]) + EscapeEach(s[1..])
  }

  predicate IsSpecial(c: char)
  {
    c == '&' || c == '<' || c == '>' || c == '"' || c == '\''
  }

  lemma EscapeHtmlAppend(a: string, b: string)
    ensures EscapeHtml(a + b) == EscapeHtml(a) + EscapeHtml(b)
  {
    ReplaceAllAppend(a, b, '&', "&amp;");
    var a1, b1 := ReplaceAll(a, '&', "&amp;"), ReplaceAll(b, '&', "&amp;");
    ReplaceAllAppend(a1, b1, '<', "&lt;");
    var a2, b2 := ReplaceAll(a1, '<', "&lt;"), ReplaceAll(b1, '<', "&lt;");
    ReplaceAllAppend(a2, b2, '>', "&gt;");
    var a3, b3 := ReplaceAll(a2, '>', "&gt;"), ReplaceAll(b2, '>', "&gt;");
    ReplaceAllAppend(a3, b3, '"', "&quot;");
    var a4, b4 := ReplaceAll(a3, '"', "&quot;"), ReplaceAll(b3, '"', "&quot;");
    ReplaceAllAppend(a4, b4, '\'', "&#039;");
  }

  /** One replacement step on a one-character text, or on a text without the character. */
  lemma ReplaceStep(x: string, d: char, rep: string)
    requires x == [d] || d !in x
    ensures ReplaceAll(x, d, rep) == if x == [d] then rep else x
  {
    if x == [d] {
      assert x[1..] == [];
    } else {
      ReplaceAllAbsent(x, d, rep);
    }
  }

  /** Escaping one character gives its entity: later replacements leave earlier entities alone. */
  lemma EscapeHtmlChar(c: char)
    ensures EscapeHtml([c]) == EscapeChar(c)
  {
    ReplaceStep([c], '&', "&amp;");
    if c == '&' {
      EscapeAmpersand();
    } else {
      EscapeAfterAmpersand(c);
    }
  }

  lemma EscapeAmpersand()
    ensures EscapeHtml("&") == "&amp;"
  {
    ReplaceStep("&", '&', "&amp;");
    EscapeTailAbsent("&amp;");
  }

  lemma EscapeAfterAmpersand(c: char)
    requires c != '&'
    ensures EscapeHtml([c]) == EscapeChar(c)
  {
    ReplaceAllAbsent([c], '&', "&amp;");
    ReplaceStep([c], '<', "&lt;");
    if c == '<' {
      EscapeTailAbsent2("&lt;");
    } else {
      EscapeAfterLess(c);
    }
  }

  lemma EscapeAfterLess(c: char)
    requires c != '&' && c != '<'
    ensures ReplaceAll(ReplaceAll(ReplaceAll([c], '>', "&gt;"), '"', "&quot;"), '\'', "&#039;") == EscapeChar(c)
  {
    ReplaceStep([c], '>', "&gt;");
    if c == '>' {
      ReplaceAllAbsent("&gt;", '"', "&quot;");
      ReplaceAllAbsent("&gt;", '\'', "&#039;");
    } else {
      ReplaceStep([c], '"', "&quot;");
      if c == '"' {
        ReplaceAllAbsent("&quot;", '\'', "&#039;");
      } else {
        ReplaceStep([c], '\'', "&#039;");
      }
    }
  }

  /** The last four replacements leave a text without their characters alone. */
  lemma EscapeTailAbsent(x: string)
    requires '<' !in x && '>' !in x && '"' !in x && '\'' !in x
    ensures ReplaceAll(ReplaceAll(ReplaceAll(ReplaceAll(x, '<', "&lt;"), '>', "&gt;"), '"', "&quot;"), '\'', "&#039;") == x
  {
    ReplaceAllAbsent(x, '<', "&lt;");
    EscapeTailAbsent2(x);
  }

  /** The last three replacements leave a text without their characters alone. */
  lemma EscapeTailAbsent2(x: string)
    requires '>' !in x && '"' !in x && '\'' !in x
    ensures ReplaceAll(ReplaceAll(ReplaceAll(x, '>', "&gt;"), '"', "&quot;"), '\'', "&#039;") == x
  {
    ReplaceAllAbsent(x, '>', "&gt;");
    ReplaceAllAbsent(x, '"', "&quot;");
    ReplaceAllAbsent(x, '\'', "&#039;");
  }

  /**
   * Because `&` is replaced first, the chain of replacements escapes every character exactly once:
   * it equals the character-by-character reference escaper.
   */
  lemma {:induction false} EscapeHtmlIsPerCharacter(s: string)
    ensures EscapeHtml(s) == EscapeEach(s)
  {
    if s != [] {
      assert s == [s[0]] + s[1..];
      EscapeHtmlAppend([s[0]], s[1..]);
      EscapeHtmlChar(s[0]);
      EscapeHtmlIsPerCharacter(s[1..]);
    }
  }

  /** A text with none of the five special characters comes back unchanged. */
  lemma EscapeHtmlPlainText(s: string)
    requires forall i :: 0 <= i < |s| ==> !IsSpecial(s[i])
    ensures EscapeHtml(s) == s
  {
    ReplaceAllAbsent(s, '&', "&amp;");
    ReplaceAllAbsent(s, '<', "&lt;");
    ReplaceAllAbsent(s, '>', "&gt;");
    ReplaceAllAbsent(s, '"', "&quot;");
    ReplaceAllAbsent(s, '\'', "&#039;");
  }

  /** Position `i` of `r` starts one of the five entities. */
  predicate EntityAt(r: string, i: nat)
    requires i <= |r|
  {
    var t := r[i..];
    StartsWith(t, "&amp;") || StartsWith(t, "&lt;") || StartsWith(t, "&gt;")
      || StartsWith(t, "&quot;") || StartsWith(t, "&#039;")
  }

  /** Every `&` of `r` begins an entity. */
  predicate AmpersandsBeginEntities(r: string)
  {
    forall i :: 0 <= i < |r| && r[i] == '&' ==> EntityAt(r, i)
  }

  lemma EntityAtExtends(a: string, b: string, i: nat)
    requires i <= |a| && EntityAt(a, i)
    ensures EntityAt(a + b, i)
  {
    assert (a + b)[i..] == a[i..] + b;
  }

  lemma AmpersandsConcat(a: string, b: string)
    requires AmpersandsBeginEntities(a) && AmpersandsBeginEntities(b)
    ensures AmpersandsBeginEntities(a + b)
  {
    forall i | 0 <= i < |a + b| && (a + b)[i] == '&' ensures EntityAt(a + b, i) {
      if i < |a| {
        EntityAtExtends(a, b, i);
      } else {
        assert (a + b)[i..] == b[i - |a|..];
        assert EntityAt(b, i - |a|);
      }
    }
  }

  lemma EscapeCharAmpersands(c: char)
    ensures AmpersandsBeginEntities(EscapeChar(c))
  {
    var e := EscapeChar(c);
    if IsSpecial(c) {
      assert e[0] == '&' && forall i :: 0 < i < |e| ==> e[i] != '&';
      assert EntityAt(e, 0);
    }
  }

  lemma {:induction false} EscapeEachAmpersands(s: string)
    ensures AmpersandsBeginEntities(EscapeEach(s))
  {
    if s != [] {
      EscapeEachAmpersands(s[1..]);
      EscapeCharAmpersands(s[0]);
      AmpersandsConcat(EscapeChar(s[0]), EscapeEach(s[1..]));
    }
  }

  /** Every `&` in the output begins one of the five entities: no bare ampersand survives. */
  lemma EscapeHtmlAmpersandsBeginEntities(s: string)
    ensures AmpersandsBeginEntities(EscapeHtml(s))
  {
    EscapeHtmlIsPerCharacter(s);
    EscapeEachAmpersands(s);
  }

  /** Decodes the five entities (the inverse of the escaper). */
  function Unescape(r: string): string
    decreases |r|
  {
    if r == [] then []
    else if StartsWith(r, "&amp;") then "&" + Unescape(r[5..])
    else if StartsWith(r, "&lt;") then "<" + Unescape(r[4..])
    else if StartsWith(r, "&gt;") then ">" + Unescape(r[4..])
    else if StartsWith(r, "&quot;") then "\"" + Unescape(r[6..])
    else if StartsWith(r, "&#039;") then "'" + Unescape(r[6..])
    else [r[0]] + Unescape(r[1..])
  }

  /** Decoding an entity followed by more text: the entity turns back into its character. */
  lemma UnescapeAmp(t: string)
    ensures Unescape("&amp;" + t) == "&" + Unescape(t)
  {
    var r := "&amp;" + t;
    assert r[..5] == "&amp;" && r[5..] == t;
  }

  lemma UnescapeLt(t: string)
    ensures Unescape("&lt;" + t) == "<" + Unescape(t)
  {
    var r := "&lt;" + t;
    assert r[..4] == "&lt;" && r[4..] == t;
    assert !StartsWith(r, "&amp;") by { assert r[1] == 'l'; }
  }

  lemma UnescapeGt(t: string)
    ensures Unescape("&gt;" + t) == ">" + Unescape(t)
  {
    var r := "&gt;" + t;
    assert r[..4] == "&gt;" && r[4..] == t;
    assert r[1] == 'g';
    assert !StartsWith(r, "&amp;") && !StartsWith(r, "&lt;");
  }

  lemma UnescapeQuot(t: string)
    ensures Unescape("&quot;" + t) == "\"" + Unescape(t)
  {
    var r := "&quot;" + t;
    assert r[..6] == "&quot;" && r[6..] == t;
    assert r[1] == 'q';
    assert !StartsWith(r, "&amp;") && !StartsWith(r, "&lt;") && !StartsWith(r, "&gt;");
  }

  lemma UnescapeApos(t: string)
    ensures Unescape("&#039;" + t) == "'" + Unescape(t)
  {
    var r := "&#039;" + t;
    assert r[..6] == "&#039;" && r[6..] == t;
    assert r[1] == '#';
    assert !StartsWith(r, "&amp;") && !StartsWith(r, "&lt;") && !StartsWith(r, "&gt;") && !StartsWith(r, "&quot;");
  }

  /** A text whose first character is not `&` starts no entity. */
  lemma NoEntityStart(r: string, p: string)
    requires r != [] && r[0] != '&' && p != [] && p[0] == '&'
    ensures !StartsWith(r, p)
  {
  }

  lemma UnescapePlain(c: char, t: string)
    requires !IsSpecial(c)
    ensures Unescape([c] + t) == [c] + Unescape(t)
  {
    var r := [c] + t;
    assert r[0] == c && r[1..] == t;
    NoEntityStart(r, "&amp;");
    NoEntityStart(r, "&lt;");
    NoEntityStart(r, "&gt;");
    NoEntityStart(r, "&quot;");
    NoEntityStart(r, "&#039;");
  }

  lemma UnescapeChar(c: char, t: string)
    ensures Unescape(EscapeChar(c) + t) == [c] + Unescape(t)
  {
    match c
    case '&' => UnescapeAmp(t);
    case '<' => UnescapeLt(t);
    case '>' => UnescapeGt(t);
    case '"' => UnescapeQuot(t);
    case '\'' => UnescapeApos(t);
    case _ => UnescapePlain(c, t);
  }

  lemma {:induction false} UnescapeEscapeEach(s: string)
    ensures Unescape(EscapeEach(s)) == s
  {
    if s != [] {
      UnescapeChar(s[0], EscapeEach(s[1..]));
      UnescapeEscapeEach(s[1..]);
    }
  }

  /** Escaping loses nothing: decoding the entities gives the original text back. */
  lemma EscapeHtmlRoundTrip(s: string)
    ensures Unescape(EscapeHtml(s)) == s
  {
    EscapeHtmlIsPerCharacter(s);
    UnescapeEscapeEach(s);
  }

  // ---------------------------------------------------------------------------
  // The message box

  /** `value.substring(0, start) + text + value.substring(end)`: the selection replaced by `text`. */
  function Splice(v: string, start: nat, end: nat, text: string): (r: string)
    requires start <= end <= |v|
    ensures |r| == |v| - (end - start) + |text|
    ensures r[..start] == v[..start]
    ensures r[start..start + |text|] == text
    ensures r[start + |text|..] == v[end..]
  {
    v[..start] + text + v[end..]
  }

  /** The parts of a `keydown` event the handler reads. */
  datatype KeyEvent = KeyEvent(key: string, ctrlKey: bool, shiftKey: bool)

  /** What the handler does with a key: the three prevented cases, or the browser's default. */
  datatype KeyAction = InsertNewline | Submit | InsertTab | Default

  /**
   * The branch the `keydown` handler takes. Ctrl+Enter always inserts a newline and never submits
   * (whatever Shift says); Enter submits exactly when neither Ctrl nor Shift is held; Tab always
   * inserts spaces; Shift+Enter and every other key are left to the browser.
   */
  function Classify(e: KeyEvent): (a: KeyAction)
    ensures a == InsertNewline <==> e.ctrlKey && e.key == "Enter"
    ensures a == Submit <==> e.key == "Enter" && !e.ctrlKey && !e.shiftKey
    ensures a == InsertTab <==> e.key == "Tab"
    ensures a == Default <==> (e.key == "Enter" && !e.ctrlKey && e.shiftKey) || (e.key != "Enter" && e.key != "Tab")
  {
    if e.ctrlKey && e.key == "Enter" then InsertNewline
    else if e.key == "Enter" && !e.shiftKey then Submit
    else if e.key == "Tab" then InsertTab
    else Default
  }

  /** The four spaces Tab inserts. */
  const TabText: string := "    "

  /**
   * The submit guard: the text sent is the trimmed box content, and nothing is sent when that is
   * empty, which is exactly when the box holds only whitespace.
   */
  function SubmittedText(v: string): (r: Option<string>)
    ensures r.None? <==> AllSpace(JavaScript, v)
    ensures r.Some? ==> r.value == Strip(JavaScript, v)
    ensures r.Some? ==> !IsSpace(JavaScript, r.value[0]) && !IsSpace(JavaScript, r.value[|r.value| - 1])
  {
    var message := Strip(JavaScript, v);
    StripEmptyIff(JavaScript, v);
    if message != "" then Some(message) else None
  }

  /** The `messageInput` text area: its text and its selection, which the browser keeps in range. */
  class MessageInput {
    var value: string
    var selectionStart: nat
    var selectionEnd: nat

    ghost predicate Valid()
      reads this
    {
      selectionStart <= selectionEnd <= |value|
    }

    constructor ()
      ensures Valid() && value == "" && selectionStart == 0 && selectionEnd == 0
    {
      value := "";
      selectionStart := 0;
      selectionEnd := 0;
    }

    /** Replaces the selection by `text` and puts the caret right after it. */
    method InsertAtSelection(text: string)
      requires Valid()
      modifies this
      ensures Valid()
      ensures value == Splice(old(value), old(selectionStart), old(selectionEnd), text)
      ensures selectionStart == selectionEnd == old(selectionStart) + |text|
    {
      var start := selectionStart;
      var end := selectionEnd;
      value := value[..start] + text + value[end..];
      selectionEnd := start + |text|;
      selectionStart := selectionEnd;
    }

    /**
     * The form's `submit` listener: with a non-blank box, emits the trimmed text (the result) and
     * clears the box, which puts the caret at 0; with a blank box, does nothing.
     */
    method OnSubmit() returns (sent: Option<string>)
      requires Valid()
      modifies this
      ensures Valid()
      ensures sent == SubmittedText(old(value))
      ensures sent.Some? ==> value == "" && selectionStart == 0 && selectionEnd == 0
      ensures sent.None? ==> unchanged(this)
    {
      var message := Strip(JavaScript, value);
      StripEmptyIff(JavaScript, value);
      if message != "" {
        sent := Some(message);
        value := "";
        selectionStart, selectionEnd := 0, 0;
      } else {
        sent := None;
      }
    }

    /**
     * The `keydown` listener. Ctrl+Enter splices in "\n" and Tab four spaces in place of the
     * selection, with the caret after the insertion; Enter without Shift dispatches `submit`;
     * anything else is left to the browser and changes nothing here.
     */
    method OnKeyDown(e: KeyEvent) returns (action: KeyAction, sent: Option<string>)
      requires Valid()
      modifies this
      ensures Valid()
      ensures action == Classify(e)
      ensures action == InsertNewline ==>
        && value == Splice(old(value), old(selectionStart), old(selectionEnd), "\n")
        && selectionStart == selectionEnd == old(selectionStart) + 1
        && sent == None
      ensures action == InsertTab ==>
        && value == Splice(old(value), old(selectionStart), old(selectionEnd), TabText)
        && selectionStart == selectionEnd == old(selectionStart) + 4
        && sent == None
      ensures action == Submit ==>
        && sent == SubmittedText(old(value))
        && (sent.Some? ==> value == "" && selectionStart == 0 && selectionEnd == 0)
        && (sent.None? ==> unchanged(this))
      ensures action == Default ==> unchanged(this) && sent == None
    {
      action := Classify(e);
      sent := None;
      if e.ctrlKey && e.key == "Enter" {
        InsertAtSelection("\n");
        return;
      }
      if e.key == "Enter" && !e.shiftKey {
        sent := OnSubmit();
        return;
      }
      if e.key == "Tab" {
        InsertAtSelection(TabText);
      }
    }
  }

  // ---------------------------------------------------------------------------
  // Image uploads

  /** The 16 MB limit the client checks (the same as the server's MAX_CONTENT_LENGTH). */
  const MaxImageBytes: nat := 16 * 1024 * 1024

  /** A file or clipboard item: its MIME type and its size in bytes. */
  datatype ImageFile = ImageFile(mimeType: string, size: nat)

  const NotImageNotice: string := "只能上传图片文件"
  const TooLargeNotice: string := "图片大小不能超过16MB"
  const UploadFailedNotice: string := "图片上传失败"

  /**
   * What an upload path does: the URLs it emits as `image_message`, in order, and the system
   * messages it shows. `response` stands for the `/upload` fetch: the URL the server returned,
   * or None when the request failed or the server refused the file.
   */
  datatype Effects = Effects(images: seq<string>, notices: seq<string>)

  function Then(a: Effects, b: Effects): Effects
  {
    Effects(a.images + b.images, a.notices + b.notices)
  }

  const NoEffects: Effects := Effects([], [])

  /** `file.type.startsWith('image/')`: the type is "image" followed by a slash and possibly more. */
  predicate IsImageType(mimeType: string): (b: bool)
    ensures b <==> StartsWith(mimeType, "image") && |mimeType| > 5 && mimeType[5] == '/'
  {
    StartsWith(mimeType, "image/")
  }

  /**
   * Uploading a file that passed the guards: exactly one effect, the URL emitted when the upload
   * returned one, the failure notice otherwise.
   */
  function Upload(response: Option<string>): (r: Effects)
    ensures |r.images| + |r.notices| == 1
    ensures r.images != [] <==> response.Some?
    ensures response.Some? ==> r.images == [response.value]
    ensures response.None? ==> r.notices == [UploadFailedNotice]
  {
    match response
    case Some(url) => Effects([url], [])
    case None => Effects([], [UploadFailedNotice])
  }

  /**
   * The file picker's `change` listener: no file, nothing; a non-image type or a file over 16 MB
   * is refused with its notice and never uploaded; otherwise the file is uploaded.
   */
  function OnImagePicked(file: Option<ImageFile>, response: Option<string>): (r: Effects)
    ensures r.images != [] <==>
      file.Some? && IsImageType(file.value.mimeType) && file.value.size <= MaxImageBytes && response.Some?
    ensures r.images != [] ==> r.images == [response.value] && r.notices == []
    ensures file.Some? && !IsImageType(file.value.mimeType) ==> r == Effects([], [NotImageNotice])
    ensures file.Some? && IsImageType(file.value.mimeType) && file.value.size > MaxImageBytes ==>
      r == Effects([], [TooLargeNotice])
    ensures file.Some? && IsImageType(file.value.mimeType) && file.value.size <= MaxImageBytes && response.None? ==>
      r == Effects([], [UploadFailedNotice])
    ensures file.None? <==> r == NoEffects
  {
    match file
    case None => NoEffects
    case Some(f) =>
      if !IsImageType(f.mimeType) then Effects([], [NotImageNotice])
      else if f.size > MaxImageBytes then Effects([], [TooLargeNotice])
      else Upload(response)
  }

  /** The paste listener's test `item.type.indexOf('image') === 0`: it accepts every `image/` type. */
  predicate IsPastedImage(item: ImageFile): (b: bool)
    ensures IsImageType(item.mimeType) ==> b
  {
    StartsWith(item.mimeType, "image")
  }

  /** The paste test is looser than the picker's and the drop's: a bare "image" type passes only it. */
  lemma PasteTestIsLooser()
    ensures IsPastedImage(ImageFile("image", 0)) && !IsImageType("image")
  {
    assert "image"[..5] == "image";
  }

  /** Item `k` is the first clipboard item of image type. */
  predicate PastedFirstAt(items: seq<ImageFile>, k: nat)
    requires k < |items|
  {
    IsPastedImage(items[k]) && forall j :: 0 <= j < k ==> !IsPastedImage(items[j])
  }

  /**
   * The paste listener: the first clipboard item whose type starts with "image" is handled and the
   * loop stops (`break`), so at most one upload happens; a pasted image over 16 MB is refused.
   * `prevented` says whether the browser's own paste was cancelled.
   */
  method OnPaste(items: seq<ImageFile>, response: Option<string>) returns (prevented: bool, effects: Effects)
    ensures prevented <==> exists k :: 0 <= k < |items| && IsPastedImage(items[k])
    ensures !prevented ==> effects == NoEffects
    ensures prevented ==> exists k :: (0 <= k < |items| && PastedFirstAt(items, k) &&
      effects == (if items[k].size > MaxImageBytes then Effects([], [TooLargeNotice]) else Upload(response)))
  {
    prevented, effects := false, NoEffects;
    var n := 0;
    while n < |items|
      invariant 0 <= n <= |items|
      invariant forall j :: 0 <= j < n ==> !IsPastedImage(items[j])
    {
      var item := items[n];
      if StartsWith(item.mimeType, "image") {
        prevented := true;
        if item.size > MaxImageBytes {
          effects := Effects([], [TooLargeNotice]);
          return;
        }
        effects := Upload(response);
        break;
      }
      n := n + 1;
    }
  }

  /**
   * One dropped file: a non-image is skipped silently, an image over 16 MB only shows the notice,
   * and only an image within the limit is uploaded.
   */
  function DropOne(file: ImageFile, response: Option<string>): (r: Effects)
    ensures !IsImageType(file.mimeType) ==> r == NoEffects
    ensures IsImageType(file.mimeType) && file.size > MaxImageBytes ==> r == Effects([], [TooLargeNotice])
    ensures r.images != [] ==> IsImageType(file.mimeType) && file.size <= MaxImageBytes && response.Some? && r.images == [response.value]
    ensures IsImageType(file.mimeType) && file.size <= MaxImageBytes && response.None? ==>
      r == Effects([], [UploadFailedNotice])
    ensures IsImageType(file.mimeType) && file.size <= MaxImageBytes && response.Some? ==>
      r == Effects([response.value], [])
    ensures IsImageType(file.mimeType) && file.size <= MaxImageBytes ==> r == Upload(response)
  {
    if !IsImageType(file.mimeType) then NoEffects
    else if file.size > MaxImageBytes then Effects([], [TooLargeNotice])
    else Upload(response)
  }

  /**
   * The drop listener over the dropped files, in order; `responses[k]` is the fetch for file k.
   * Each file yields at most one upload or one notice.
   */
  function DropEffects(files: seq<ImageFile>, responses: seq<Option<string>>): (r: Effects)
    requires |responses| == |files|
    ensures |r.images| + |r.notices| <= |files|
  {
    if files == [] then NoEffects
    else Then(DropEffects(files[..|files| - 1], responses[..|files| - 1]),
              DropOne(files[|files| - 1], responses[|files| - 1]))
  }

  lemma ThenAssociative(a: Effects, b: Effects, c: Effects)
    ensures Then(Then(a, b), c) == Then(a, Then(b, c))
  {
  }

  /** Handling a batch in two parts is handling the parts one after the other. */
  lemma {:induction false} DropEffectsAppend(a: seq<ImageFile>, ra: seq<Option<string>>,
                                             b: seq<ImageFile>, rb: seq<Option<string>>)
    requires |ra| == |a| && |rb| == |b|
    ensures DropEffects(a + b, ra + rb) == Then(DropEffects(a, ra), DropEffects(b, rb))
    decreases |b|
  {
    if b == [] {
      assert a + b == a && ra + rb == ra;
    } else {
      var b0, rb0 := b[..|b| - 1], rb[..|b| - 1];
      assert (a + b)[..|a + b| - 1] == a + b0;
      assert (ra + rb)[..|a + b| - 1] == ra + rb0;
      DropEffectsAppend(a, ra, b0, rb0);
      ThenAssociative(DropEffects(a, ra), DropEffects(b0, rb0), DropOne(b[|b| - 1], rb[|b| - 1]));
    }
  }

  /** The files up to and including `k` are those before `k`, then file `k`. */
  lemma DropEffectsPrefix(files: seq<ImageFile>, responses: seq<Option<string>>, k: nat)
    requires |responses| == |files| && k < |files|
    ensures DropEffects(files[..k + 1], responses[..k + 1]) ==
      Then(DropEffects(files[..k], responses[..k]), DropOne(files[k], responses[k]))
  {
    assert files[..k + 1][..k] == files[..k];
    assert responses[..k + 1][..k] == responses[..k];
  }

  /**
   * An oversized image in the batch shows one notice and is not uploaded, and the files after it
   * are still handled (`continue`, not `return`).
   */
  lemma DropSkipsOversized(files: seq<ImageFile>, responses: seq<Option<string>>, k: nat)
    requires |responses| == |files| && k < |files|
    requires IsImageType(files[k].mimeType) && files[k].size > MaxImageBytes
    ensures DropEffects(files, responses) ==
      Then(Then(DropEffects(files[..k], responses[..k]), Effects([], [TooLargeNotice])),
           DropEffects(files[k + 1..], responses[k + 1..]))
  {
    assert files == files[..k + 1] + files[k + 1..];
    assert responses == responses[..k + 1] + responses[k + 1..];
    DropEffectsAppend(files[..k + 1], responses[..k + 1], files[k + 1..], responses[k + 1..]);
    DropEffectsPrefix(files, responses, k);
  }

  /** File `k` is an image within the limit whose upload returned `url`. */
  predicate AcceptedUpload(files: seq<ImageFile>, responses: seq<Option<string>>, k: nat, url: string)
    requires |responses| == |files| && k < |files|
  {
    IsImageType(files[k].mimeType) && files[k].size <= MaxImageBytes && responses[k] == Some(url)
  }

  /** Only images within the limit whose upload succeeded are ever emitted. */
  lemma {:induction false} DropEmitsOnlyAcceptedImages(files: seq<ImageFile>, responses: seq<Option<string>>, url: string)
    requires |responses| == |files|
    requires url in DropEffects(files, responses).images
    ensures exists k :: 0 <= k < |files| && AcceptedUpload(files, responses, k, url)
  {
    var n := |files| - 1;
    if url in DropEffects(files[..n], responses[..n]).images {
      DropEmitsOnlyAcceptedImages(files[..n], responses[..n], url);
      var k :| 0 <= k < n && AcceptedUpload(files[..n], responses[..n], k, url);
      assert files[k] == files[..n][k] && responses[k] == responses[..n][k];
      assert AcceptedUpload(files, responses, k, url);
    } else {
      assert AcceptedUpload(files, responses, n, url);
    }
  }

  /** Every image within the limit whose upload succeeded has its URL emitted. */
  lemma DropEmitsAcceptedImages(files: seq<ImageFile>, responses: seq<Option<string>>, k: nat, url: string)
    requires |responses| == |files| && k < |files|
    requires AcceptedUpload(files, responses, k, url)
    ensures url in DropEffects(files, responses).images
  {
    assert files == files[..k + 1] + files[k + 1..];
    assert responses == responses[..k + 1] + responses[k + 1..];
    DropEffectsAppend(files[..k + 1], responses[..k + 1], files[k + 1..], responses[k + 1..]);
    DropEffectsPrefix(files, responses, k);
    assert DropOne(files[k], responses[k]).images == [url];
  }

  /** The drop listener's loop: each image is checked and uploaded in turn; oversized ones are skipped. */
  method OnDrop(files: seq<ImageFile>, responses: seq<Option<string>>) returns (effects: Effects)
    requires |responses| == |files|
    ensures effects == DropEffects(files, responses)
  {
    effects := NoEffects;
    var n := 0;
    while n < |files|
      invariant 0 <= n <= |files|
      invariant effects == DropEffects(files[..n], responses[..n])
    {
      var file := files[n];
      assert files[..n + 1][..n] == files[..n] && responses[..n + 1][..n] == responses[..n];
      if StartsWith(file.mimeType, "image/") {
        if file.size > MaxImageBytes {
          effects := Then(effects, Effects([], [TooLargeNotice]));
          n := n + 1;
          continue;
        }
        effects := Then(effects, Upload(responses[n]));
      }
      n := n + 1;
    }
    assert files[..n] == files && responses[..n] == responses;
  }
}
