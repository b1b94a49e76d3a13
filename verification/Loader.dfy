/** The script element a plan puts on the page, read back from its bytes. (internal/gate/inject.go) */
module Loader {
  import opened Wrappers
  import opened Text
  import Html
  import opened CspPlan

  // What a reader of the page finds: a script's source and nonce attributes and its text.
  datatype Script = Script(src: Option<string>, nonce: Option<string>, content: string)

  const SCRIPT_OPEN := "<script"
  const SCRIPT_CLOSE := "</script>"

  // `text` is one script element and nothing else. Its opening tag ends at the first '>', the attributes are those
  // the tag assigns, and the element's text, in which no tag starts, is what is left before the closing tag.
  ghost predicate ReadsAs(text: string, s: Script) {
    exists e: nat :: ElementEnds(text, s, e)
  }

  ghost predicate ElementEnds(text: string, s: Script, e: nat) {
    && SCRIPT_OPEN <= text && |SCRIPT_OPEN| <= e < |text| && Html.IsTagNameEnd(text[|SCRIPT_OPEN|])
    && text[e] == '>' && (forall k :: 0 <= k < e ==> text[k] != '>')
    && Html.IsAttr(text[..e], "src", s.src) && Html.IsAttr(text[..e], "nonce", s.nonce)
    && text[e + 1..] == s.content + SCRIPT_CLOSE && '<' !in s.content
  }

  // The source expressions that match a script's address.
  function Covering(covers: (string, string) -> bool, url: string): string -> bool {
    source => covers(url, source)
  }

  // The element a browser judges: `covers` says which source expressions match an address, and `digestOf` is the
  // base64 SHA-256 of a script's text.
  function ElementOf(s: Script, covers: (string, string) -> bool, digestOf: string -> string): Element {
    if s.src.Some? then ExternalScript(Covering(covers, s.src.value)) else InlineScript(digestOf(s.content), s.nonce)
  }

  // ---------------------------------------------------------------------------
  // One element has one reading
  // ---------------------------------------------------------------------------

  lemma OneReading(text: string, s: Script, t: Script)
    requires ReadsAs(text, s) && ReadsAs(text, t)
    ensures s == t
  {
    hide Html.IsAttr, Html.IsTagNameEnd;
    var e: nat :| ElementEnds(text, s, e);
    var f: nat :| ElementEnds(text, t, f);
    assert e == f;
    Html.AttrIsUnique(text[..e], "src", s.src, t.src);
    Html.AttrIsUnique(text[..e], "nonce", s.nonce, t.nonce);
    assert text[e + 1..][..|text[e + 1..]| - |SCRIPT_CLOSE|] == s.content;
  }

  // ---------------------------------------------------------------------------
  // What the tag of a plan reads as
  // ---------------------------------------------------------------------------

  // The script each form is to put on the page.
  lemma TagReadsAs(mode: Mode, nonce: string)
    requires mode != Skip && IsBase64(nonce)
    ensures mode == External ==> ReadsAs(Tag(mode, nonce), Script(Some(PATH_RENEW), None, ""))
    ensures mode == InlineNonce ==> ReadsAs(Tag(mode, nonce), Script(None, Some(nonce), LOADER_BODY))
    ensures mode == Inline || mode == InlineHash ==> ReadsAs(Tag(mode, nonce), Script(None, None, LOADER_BODY))
  {
    hide ReadsAs;
    LoaderHasNoTag();
    match mode {
      case External => ExternalReads();
      case InlineNonce => NonceReads(nonce);
      case _ => PlainReads();
    }
  }

  // So what a plan puts on the page is the element it was made for.
  lemma TagIsTheElement(mode: Mode, nonce: string, s: Script, covers: (string, string) -> bool, digestOf: string -> string)
    requires mode != Skip && IsBase64(nonce) && ReadsAs(Tag(mode, nonce), s)
    ensures ElementOf(s, covers, digestOf)
            == Emitted(mode, nonce, digestOf(LOADER_BODY), Covering(covers, PATH_RENEW))
  {
    hide ReadsAs, Tag, LOADER_BODY, PATH_RENEW;
    TagReadsAs(mode, nonce);
    var t := match mode
      case External => Script(Some(PATH_RENEW), None, "")
      case InlineNonce => Script(None, Some(nonce), LOADER_BODY)
      case _ => Script(None, None, LOADER_BODY);
    OneReading(Tag(mode, nonce), s, t);
  }

  lemma LoaderHasNoTag()
    ensures '<' !in LOADER_BODY
  {
    assert '<' !in "(function(){" && '<' !in "var s=document" && '<' !in ".createElement(" && '<' !in "\"script\");";
    assert '<' !in "s.src=\"" && '<' !in PATH_RENEW && '<' !in "\";s.defer=true;";
    assert '<' !in "document.head" && '<' !in ".appendChild(s);" && '<' !in "})();";
  }

  // What an attribute's value may hold for any reader to find its end.
  predicate Quotable(value: string) {
    forall i :: 0 <= i < |value| ==> value[i] != '"' && value[i] != '>' && !Html.IsBlank(value[i])
  }

  // A tag with one attribute first and perhaps a word after it.
  lemma OneAttribute(name: string, value: string, rest: string, tag: string)
    requires name == "src" || name == "nonce"
    requires Quotable(value) && (rest == "" || rest == " defer")
    requires tag == SCRIPT_OPEN + " " + name + "=\"" + value + "\"" + rest
    ensures Html.IsAttr(tag, name, Some(value)) && '>' !in tag
    ensures name == "src" ==> Html.IsAttr(tag, "nonce", None)
    ensures name == "nonce" ==> Html.IsAttr(tag, "src", None)
  {
    hide Html.AssignsAt, Html.ReadsFrom, Html.IsAttr, Shape, Html.IsBlank;
    TagShape(name, value, rest, tag);
    ItsValue(name, value, rest, tag);
    NoOtherPlace(name, value, rest, tag, name);
    NoOtherPlace(name, value, rest, tag, if name == "src" then "nonce" else "src");
    forall i | 0 <= i < |tag| ensures tag[i] != '>' {
      NothingElse(name, value, rest, tag, i);
    }
    AttrFromPlaces(tag, name, |SCRIPT_OPEN| + |name| + 2, value);
    if name == "src" {
      NoAttr(tag, "nonce");
    } else {
      NoAttr(tag, "src");
    }
  }

  const FIRST := |SCRIPT_OPEN| + 1

  lemma AttrFromPlaces(tag: string, name: string, q: nat, value: string)
    requires q <= |tag| && Html.AssignsAt(tag, name, FIRST, q) && Html.ReadsFrom(tag, q, Some(value))
    requires forall j, u :: Html.AssignsAt(tag, name, j, u) ==> j == FIRST
    ensures Html.IsAttr(tag, name, Some(value))
  {
    hide Html.AssignsAt, Html.ReadsFrom;
    assert Html.FirstAssigns(tag, name, FIRST, q);
  }

  lemma NoAttr(tag: string, name: string)
    requires forall j, u :: !Html.AssignsAt(tag, name, j, u)
    ensures Html.IsAttr(tag, name, None)
  {
    hide Html.AssignsAt;
  }

  // The attribute is assigned where it stands, and its value is what the quotes hold.
  lemma ItsValue(name: string, value: string, rest: string, tag: string)
    requires name == "src" || name == "nonce"
    requires Shape(name, value, rest, tag) && Quotable(value)
    ensures var q := |SCRIPT_OPEN| + |name| + 2;
            q <= |tag| && Html.AssignsAt(tag, name, FIRST, q) && Html.ReadsFrom(tag, q, Some(value))
  {
    var q := |SCRIPT_OPEN| + |name| + 2;
    var low := ToLower(tag);
    assert low[FIRST..FIRST + |name|] == name by {
      assert forall i :: 0 <= i < |name| ==> low[FIRST + i] == LowerChar(name[i]) == name[i];
    }
    assert Html.BlanksTo(tag, FIRST + |name|, q - 1) && Html.BlanksTo(tag, q, q);
    assert Html.QuoteEnds(tag, q, q + 1 + |value|);
    assert tag[q + 1..q + 1 + |value|] == value;
  }

  // There is no other place where an attribute could be assigned.
  lemma NoOtherPlace(name: string, value: string, rest: string, tag: string, other: string)
    requires name == "src" || name == "nonce"
    requires other == "src" || other == "nonce"
    requires Shape(name, value, rest, tag) && Quotable(value) && (rest == "" || rest == " defer")
    ensures forall j, u :: Html.AssignsAt(tag, other, j, u) ==> j == FIRST && other == name
  {
    forall j, u | Html.AssignsAt(tag, other, j, u) ensures j == FIRST && other == name {
      Html.OccursAt(ToLower(tag), other, j, 0);
      NothingElse(name, value, rest, tag, j - 1);
      assert tag[FIRST] == name[0];
    }
  }

  // Elsewhere in the tag there are neither blanks nor closers.
  lemma NothingElse(name: string, value: string, rest: string, tag: string, i: nat)
    requires name == "src" || name == "nonce"
    requires Shape(name, value, rest, tag) && Quotable(value) && (rest == "" || rest == " defer")
    requires i < |tag|
    ensures tag[i] != '>'
    ensures i + 1 == FIRST || i == FIRST + |name| + 3 + |value| || !Html.IsBlank(tag[i])
  {
    var v := |SCRIPT_OPEN| + |name| + 3;
    if i < |SCRIPT_OPEN| {
      assert tag[i] == SCRIPT_OPEN[i];
    } else if FIRST <= i < v - 2 {
      assert tag[i] == name[i - FIRST];
    } else if v <= i < v + |value| {
      assert tag[i] == value[i - v];
    }
  }

  // The tag, character by character: blanks only before the attribute and before the word after it.
  ghost predicate Shape(name: string, value: string, rest: string, tag: string) {
    var v := |SCRIPT_OPEN| + |name| + 3;
    && |tag| == v + |value| + 1 + |rest| && SCRIPT_OPEN <= tag
    && tag[|SCRIPT_OPEN|] == ' ' && tag[v - 2] == '=' && tag[v - 1] == '"' && tag[v + |value|] == '"'
    && (forall i :: 0 <= i < |name| ==> tag[|SCRIPT_OPEN| + 1 + i] == name[i])
    && (forall i :: v <= i < v + |value| ==> tag[i] == value[i - v])
    && (forall i :: v + |value| + 1 <= i < |tag| ==> tag[i] == rest[i - v - |value| - 1])
  }

  lemma TagShape(name: string, value: string, rest: string, tag: string)
    requires tag == SCRIPT_OPEN + " " + name + "=\"" + value + "\"" + rest
    ensures Shape(name, value, rest, tag)
  {
    var a := SCRIPT_OPEN + " ";
    var b := a + name;
    var c := b + "=\"";
    var d := c + value;
    assert tag == d + ("\"" + rest);
  }

  lemma BareTag(tag: string)
    requires tag == SCRIPT_OPEN
    ensures Html.IsAttr(tag, "src", None) && Html.IsAttr(tag, "nonce", None) && '>' !in tag
  {
  }

  lemma ExternalReads()
    ensures ReadsAs(EXTERNAL_TAG, Script(Some(PATH_RENEW), None, ""))
  {
    hide Html.IsAttr, ReadsAs;
    var tag := SCRIPT_OPEN + " " + "src" + "=\"" + PATH_RENEW + "\"" + " defer";
    assert EXTERNAL_TAG == tag + ">" + "" + SCRIPT_CLOSE;
    OneAttribute("src", PATH_RENEW, " defer", tag);
    OpensWell(tag, "src", PATH_RENEW, " defer");
    Whole(EXTERNAL_TAG, tag, "", Script(Some(PATH_RENEW), None, ""));
  }

  lemma OpensWell(tag: string, name: string, value: string, rest: string)
    requires tag == SCRIPT_OPEN + " " + name + "=\"" + value + "\"" + rest
    ensures SCRIPT_OPEN <= tag && |tag| > |SCRIPT_OPEN| && tag[|SCRIPT_OPEN|] == ' '
  {
  }

  lemma NonceReads(nonce: string)
    requires IsBase64(nonce) && '<' !in LOADER_BODY
    ensures ReadsAs(Tag(InlineNonce, nonce), Script(None, Some(nonce), LOADER_BODY))
  {
    hide Html.IsAttr, ReadsAs, LOADER_BODY;
    var tag := SCRIPT_OPEN + " " + "nonce" + "=\"" + nonce + "\"" + "";
    assert Tag(InlineNonce, nonce) == tag + ">" + LOADER_BODY + SCRIPT_CLOSE;
    OneAttribute("nonce", nonce, "", tag);
    OpensWell(tag, "nonce", nonce, "");
    Whole(Tag(InlineNonce, nonce), tag, LOADER_BODY, Script(None, Some(nonce), LOADER_BODY));
  }

  lemma PlainReads()
    requires '<' !in LOADER_BODY
    ensures ReadsAs(Tag(Inline, ""), Script(None, None, LOADER_BODY))
  {
    hide Html.IsAttr, ReadsAs, LOADER_BODY;
    var tag := SCRIPT_OPEN;
    BareTag(tag);
    assert Tag(Inline, "") == tag + ">" + LOADER_BODY + SCRIPT_CLOSE;
    Whole(Tag(Inline, ""), tag, LOADER_BODY, Script(None, None, LOADER_BODY));
  }

  lemma Whole(text: string, tag: string, content: string, s: Script)
    requires text == tag + ">" + content + SCRIPT_CLOSE && SCRIPT_OPEN <= tag && '>' !in tag && '<' !in content
    requires |tag| > |SCRIPT_OPEN| ==> tag[|SCRIPT_OPEN|] == ' '
    requires Html.IsAttr(tag, "src", s.src) && Html.IsAttr(tag, "nonce", s.nonce) && s.content == content
    ensures ReadsAs(text, s)
  {
    hide Html.IsAttr;
    var e := |tag|;
    assert text[..e] == tag && text[e] == '>';
    assert text[e + 1..] == content + SCRIPT_CLOSE;
    assert ElementEnds(text, s, e);
  }
}
