/**
 * The webview script: the markup built for each glyph reference, the
 * first-occurrence rewrites that make its two copyable cells, the unescape
 * done when a cell is copied, and the per-cell "copied!" state machine.
 */
module LoadTtf {
  import opened Options
  import opened Hex
  import opened JsString
  import TtfPreview

  // ---------------------------------------------------------------------------
  // The two copyable cells and the copy-time unescape

  /** Left cell text: `v.replace('&', '&#38')`. */
  function LeftCell(v: string): (r: string)
    ensures '&' !in v ==> r == v
    ensures '&' in v ==> |r| == |v| + 3
  {
    forall j: nat ensures OccursAt(v, "&", j) <==> j < |v| && v[j] == '&' {
      OccursAtChar(v, '&', j);
    }
    ReplaceFirst(v, "&", "&#38")
  }

  /** Right cell text: `v.replace('&#x', '\\u').replace(';', '')`. */
  function RightCell(v: string): (r: string)
    ensures (forall j: nat :: !OccursAt(v, "&#x", j)) && ';' !in v ==> r == v
  {
    var r := ReplaceFirst(ReplaceFirst(v, "&#x", "\\u"), ";", "");
    if ';' in v then r else NoOccurrence(v, ";"); r
  }

  /** The value `copy` hands to the clipboard: `innerHTML.replace('&amp;', '&')`. */
  function Unescape(html: string): (r: string)
    ensures (forall j: nat :: !OccursAt(html, "&amp;", j)) ==> r == html
    ensures forall i: nat {:trigger OccursAt(html, "&amp;", i)} ::
      OccursAt(html, "&amp;", i) && (forall j: nat :: j < i ==> !OccursAt(html, "&amp;", j)) ==>
        |r| == |html| - 4 && r == html[..i] + "&" + html[i + 5..]
  {
    ReplaceFirst(html, "&amp;", "&")
  }

  /** Only the first `&` of `v` becomes `&#38`; every other character is kept. */
  lemma LeftCellFirstAmp(v: string)
    ensures '&' !in v ==> LeftCell(v) == v
    ensures forall i :: 0 <= i < |v| && v[i] == '&' && '&' !in v[..i] ==>
      LeftCell(v) == v[..i] + "&#38" + v[i + 1..]
  {
    forall j: nat ensures OccursAt(v, "&", j) <==> j < |v| && v[j] == '&' {
      OccursAtChar(v, '&', j);
    }
    forall i | 0 <= i < |v| && v[i] == '&' && '&' !in v[..i]
      ensures LeftCell(v) == v[..i] + "&#38" + v[i + 1..]
    {
      forall j: nat | j < i ensures !OccursAt(v, "&", j) {
        assert v[..i][j] == v[j];
      }
    }
  }

  /** For a reference `&#x` + h + `;`, the right cell is `\u` + h: no `&`, `#` or `;` is left. */
  lemma RightCellOfRef(h: string)
    requires IsHexString(h)
    ensures RightCell("&#x" + h + ";") == "\\u" + h
    ensures forall c :: c in RightCell("&#x" + h + ";") ==> c != '&' && c != '#' && c != ';'
  {
    ReplaceRefPrefix(h);
    var t := "\\u" + h;
    assert t + ";" == "\\u" + h + ";";
    forall c | c in t ensures c != '&' && c != '#' && c != ';' {
      var k :| 0 <= k < |t| && t[k] == c;
      if k >= 2 {
        assert t[k] == h[k - 2];
      }
    }
    DropFinalSemicolon(t);
  }

  /** The first `.replace` turns the leading `&#x` of a reference into `\u`. */
  lemma ReplaceRefPrefix(h: string)
    ensures ReplaceFirst("&#x" + h + ";", "&#x", "\\u") == "\\u" + h + ";"
  {
    var v := "&#x" + h + ";";
    assert OccursAt(v, "&#x", 0);
    assert v[3..] == h + ";";
  }

  /** The second `.replace` drops a final `;` that is the only one. */
  lemma DropFinalSemicolon(t: string)
    requires ';' !in t
    ensures ReplaceFirst(t + ";", ";", "") == t
  {
    var s := t + ";";
    forall j: nat | j < |t| ensures !OccursAt(s, ";", j) {
      OccursAtChar(s, ';', j);
      assert s[j] == t[j];
    }
    OccursAtChar(s, ';', |t|);
    assert s[..|t|] == t;
    assert s[|t| + 1..] == [];
  }

  // ---------------------------------------------------------------------------
  // The browser, as far as the copy round trip depends on it (modelling assumption)

  /**
   * The text the HTML parser makes of a cell's markup, where the only character
   * reference is the `&#38` that the left cell inserts (it decodes to `&`).
   */
  function ParsedText(m: string): string {
    if |m| >= 4 && m[..4] == "&#38" then "&" + ParsedText(m[4..])
    else if m == [] then []
    else [m[0]] + ParsedText(m[1..])
  }

  predicate NeedsEscape(c: char) {
    c == '&' || c == '<' || c == '>' || c == ' '
  }

  /** Reading `innerHTML` back: the text node serialised with its `&`, `<`, `>` and no-break spaces escaped. */
  function SerializeText(t: string): string {
    if t == [] then []
    else
      (match t[0]
       case '&' => "&amp;"
       case '<' => "&lt;"
       case '>' => "&gt;"
       case ' ' => "&nbsp;"
       case _ => [t[0]])
      + SerializeText(t[1..])
  }

  /** What `self.innerHTML` reads as after the cell was written with markup `m`. */
  function ReadBack(m: string): string {
    SerializeText(ParsedText(m))
  }

  lemma {:induction false} ParsedTextPlain(s: string)
    requires '&' !in s
    ensures ParsedText(s) == s
  {
    if s != [] {
      assert s[0] != '&';
      ParsedTextPlain(s[1..]);
    }
  }

  lemma {:induction false} SerializeTextPlain(s: string)
    requires forall c :: c in s ==> !NeedsEscape(c)
    ensures SerializeText(s) == s
  {
    if s != [] {
      assert !NeedsEscape(s[0]);
      assert forall c :: c in s[1..] ==> c in s;
      SerializeTextPlain(s[1..]);
    }
  }

  lemma HexStringPlain(h: string)
    requires IsHexString(h)
    ensures '&' !in h && ';' !in h
    ensures forall c :: c in h ==> !NeedsEscape(c)
  {
  }

  /**
   * The left cell of `&#x` + h + `;` shows the reference itself, reads back as
   * `&amp;#x` + h + `;`, and the unescape in `copy` turns that into the reference again.
   */
  lemma LeftCellCopyRoundTrip(h: string)
    requires IsHexString(h)
    ensures LeftCell("&#x" + h + ";") == "&#38#x" + h + ";"
    ensures ParsedText(LeftCell("&#x" + h + ";")) == "&#x" + h + ";"
    ensures ReadBack(LeftCell("&#x" + h + ";")) == "&amp;#x" + h + ";"
    ensures Unescape(ReadBack(LeftCell("&#x" + h + ";"))) == "&#x" + h + ";"
  {
    HexStringPlain(h);
    var rest := "#x" + h + ";";
    assert "&#x" + h + ";" == "&" + rest;
    assert "&#38#x" + h + ";" == "&#38" + rest;
    assert "&amp;#x" + h + ";" == "&amp;" + rest;
    assert '&' !in rest && rest[0] == '#';
    assert forall c :: c in rest ==> !NeedsEscape(c);
    LeftCellOfRef(rest);
    ParsedTextAfterAmp(rest);
    SerializeAfterAmp(rest);
    UnescapeLeading(rest);
  }

  lemma LeftCellOfRef(rest: string)
    ensures LeftCell("&" + rest) == "&#38" + rest
  {
    var v := "&" + rest;
    assert OccursAt(v, "&", 0);
    assert v[1..] == rest;
  }

  lemma ParsedTextAfterAmp(rest: string)
    requires '&' !in rest && rest != [] && rest[0] == '#'
    ensures ParsedText("&#38" + rest) == "&" + rest
  {
    var m := "&#38" + rest;
    assert m[..4] == "&#38" && m[4..] == rest;
    ParsedTextPlain(rest);
  }

  lemma SerializeAfterAmp(rest: string)
    requires forall c :: c in rest ==> !NeedsEscape(c)
    ensures SerializeText("&" + rest) == "&amp;" + rest
  {
    var t := "&" + rest;
    assert t[1..] == rest;
    SerializeTextPlain(rest);
  }

  lemma UnescapeLeading(rest: string)
    ensures Unescape("&amp;" + rest) == "&" + rest
  {
    var back := "&amp;" + rest;
    assert OccursAt(back, "&amp;", 0);
    assert back[5..] == rest;
  }

  /** The right cell reads back unchanged, and the unescape leaves it as it is. */
  lemma RightCellCopyRoundTrip(h: string)
    requires IsHexString(h)
    ensures ReadBack(RightCell("&#x" + h + ";")) == "\\u" + h
    ensures Unescape(ReadBack(RightCell("&#x" + h + ";"))) == "\\u" + h
  {
    RightCellOfRef(h);
    HexStringPlain(h);
    var r := "\\u" + h;
    assert forall c :: c in r ==> c == '\\' || c == 'u' || c in h;
    assert '&' !in r;
    assert forall c :: c in r ==> !NeedsEscape(c);
    ParsedTextPlain(r);
    SerializeTextPlain(r);
    UnescapeNoAmp(r);
  }

  /** A string without `&` has no `&amp;` for the unescape to rewrite. */
  lemma UnescapeNoAmp(s: string)
    requires '&' !in s
    ensures Unescape(s) == s
  {
    NoOccurrence(s, "&amp;");
  }

  /**
   * For each reference the host emits: copying the left cell yields the
   * reference, copying the right cell yields `\u` and the codepoint's hex digits.
   */
  lemma CopyGlyphRef(cp: nat)
    ensures Unescape(ReadBack(LeftCell(TtfPreview.GlyphRef(cp)))) == TtfPreview.GlyphRef(cp)
    ensures Unescape(ReadBack(RightCell(TtfPreview.GlyphRef(cp)))) == "\\u" + ToHex(cp)
  {
    assert TtfPreview.GlyphRef(cp) == "&#x" + ToHex(cp) + ";";
    LeftCellCopyRoundTrip(ToHex(cp));
    RightCellCopyRoundTrip(ToHex(cp));
  }

  // ---------------------------------------------------------------------------
  // The content markup

  // The fixed text of the template literal around the three interpolations.
  const ItemOpen: string := "<div class=\"item-content\">"
  const IconOpen: string := "\n  <div class=\"iconfont\">"
  const LeftOpen: string :=
    "</div>\n  <div style=\"display: flex;flex-direction: row;align-self:stretch;border-top: 1px solid #ccc;\">\n"
    + "    <div onclick=\"copy(this)\"  class=\"text text-left\">"
  const RightOpen: string := "</div>\n    <div onclick=\"copy(this)\" class=\"text text-right\">"
  const ItemClose: string := "</div>\n  </div>\n  </div>"

  /** The block built for one name by the `names.map` callback. */
  function ItemMarkup(v: string): (b: string)
    ensures |b| > |ItemOpen| && BlockAt(b, 0, ItemOpen)
  {
    var tail := IconOpen + v + LeftOpen + LeftCell(v) + RightOpen + RightCell(v) + ItemClose;
    assert (ItemOpen + tail)[..|ItemOpen|] == ItemOpen;
    ItemOpen + tail
  }

  /** `Array.prototype.join(sep)` on an array of strings. */
  function Join(xs: seq<string>, sep: string): (r: string)
    ensures |xs| > 0 ==> BlockAt(r, 0, xs[0])
  {
    if |xs| == 0 then ""
    else if |xs| == 1 then xs[0]
    else xs[0] + sep + Join(xs[1..], sep)
  }

  /** Where element `k` starts in `Join(xs, sep)`: the earlier elements, each followed by `sep`. */
  function Offset(xs: seq<string>, sep: string, k: nat): nat
    requires k <= |xs|
  {
    if k == 0 then 0 else |xs[0]| + |sep| + Offset(xs[1..], sep, k - 1)
  }

  lemma {:induction false} OffsetStep(xs: seq<string>, sep: string, k: nat)
    requires k < |xs|
    ensures Offset(xs, sep, k + 1) == Offset(xs, sep, k) + |xs[k]| + |sep|
  {
    if k > 0 {
      OffsetStep(xs[1..], sep, k - 1);
    }
  }

  /** From element `k` on, the joined string is the join of the elements from `k` on. */
  lemma {:induction false} JoinSuffix(xs: seq<string>, sep: string, k: nat)
    requires k < |xs|
    ensures Offset(xs, sep, k) <= |Join(xs, sep)|
    ensures Join(xs, sep)[Offset(xs, sep, k)..] == Join(xs[k..], sep)
  {
    if k > 0 {
      var head := xs[0] + sep;
      var rest := Join(xs[1..], sep);
      assert Join(xs, sep) == head + rest;
      JoinSuffix(xs[1..], sep, k - 1);
      assert xs[1..][k - 1..] == xs[k..];
      var o := Offset(xs[1..], sep, k - 1);
      assert (head + rest)[|head| + o..] == rest[o..];
    }
  }

  /**
   * The joined string is tiled by the elements in order: element `k` stands at
   * `Offset(xs, sep, k)`, followed by `sep` unless it is the last, which ends the string.
   */
  lemma JoinTiles(xs: seq<string>, sep: string, k: nat)
    requires k < |xs|
    ensures Offset(xs, sep, k) + |xs[k]| <= |Join(xs, sep)|
    ensures Join(xs, sep)[Offset(xs, sep, k)..Offset(xs, sep, k) + |xs[k]|] == xs[k]
    ensures k + 1 < |xs| ==>
      Offset(xs, sep, k + 1) == Offset(xs, sep, k) + |xs[k]| + |sep| &&
      Offset(xs, sep, k + 1) <= |Join(xs, sep)| &&
      Join(xs, sep)[Offset(xs, sep, k) + |xs[k]|..Offset(xs, sep, k + 1)] == sep
    ensures k + 1 == |xs| ==> |Join(xs, sep)| == Offset(xs, sep, k) + |xs[k]|
  {
    OffsetStep(xs, sep, k);
    JoinSuffix(xs, sep, k);
    var j, o := Join(xs, sep), Offset(xs, sep, k);
    var tail := Join(xs[k..], sep);
    assert j[o..] == tail;
    if k + 1 == |xs| {
      assert xs[k..] == [xs[k]];
      assert tail == xs[k];
    } else {
      assert xs[k..][1..] == xs[k + 1..];
      var more := Join(xs[k + 1..], sep);
      assert tail == xs[k] + sep + more;
      assert j[o..o + |xs[k]|] == tail[..|xs[k]|] == xs[k];
      assert j[o + |xs[k]|..o + |xs[k]| + |sep|] == tail[|xs[k]|..|xs[k]| + |sep|] == sep;
    }
  }

  /** The blocks for `names`, in order. */
  function Items(names: seq<string>): seq<string> {
    seq(|names|, k requires 0 <= k < |names| => ItemMarkup(names[k]))
  }

  /** What the message handler assigns to `content.innerHTML`. */
  function ContentMarkup(names: seq<string>): (r: string)
    ensures |names| > 0 ==> BlockAt(r, 0, ItemOpen)
  {
    var r := Join(Items(names), "\n");
    if |names| == 0 then r else BlockAtStart(r, ItemMarkup(names[0]), ItemOpen); r
  }

  /** `s` holds `b` starting at index `o`. */
  predicate BlockAt(s: string, o: int, b: string) {
    0 <= o && o + |b| <= |s| && s[o..o + |b|] == b
  }

  /** A prefix of a prefix is a prefix. */
  lemma BlockAtStart(s: string, b: string, p: string)
    requires BlockAt(s, 0, b) && BlockAt(b, 0, p)
    ensures BlockAt(s, 0, p)
  {
    assert s[..|p|] == s[..|b|][..|p|];
  }

  /** `JoinTiles` for a block `b` known to be element `k`. */
  lemma JoinBlockAt(xs: seq<string>, sep: string, k: nat, b: string)
    requires k < |xs| && xs[k] == b
    ensures BlockAt(Join(xs, sep), Offset(xs, sep, k), b)
    ensures k + 1 == |xs| ==> |Join(xs, sep)| == Offset(xs, sep, k) + |b|
  {
    JoinTiles(xs, sep, k);
  }

  /** Between elements `k` and `k + 1` a newline join puts exactly one '\n'. */
  lemma JoinNewlineAt(xs: seq<string>, k: nat)
    requires k + 1 < |xs|
    ensures BlockAt(Join(xs, "\n"), Offset(xs, "\n", k + 1) - 1, "\n")
  {
    JoinTiles(xs, "\n", k);
  }

  /**
   * The content holds one block per name, in the order of `names`: block `k`
   * is `ItemMarkup(names[k])` and stands at `Offset(Items(names), "\n", k)` ...
   */
  lemma ContentMarkupBlockAt(names: seq<string>, k: nat)
    requires k < |names|
    ensures BlockAt(ContentMarkup(names), Offset(Items(names), "\n", k), ItemMarkup(names[k]))
  {
    JoinBlockAt(Items(names), "\n", k, ItemMarkup(names[k]));
  }

  /** ... the next block starts one character after it ends ... */
  lemma ContentMarkupNext(names: seq<string>, k: nat)
    requires k + 1 < |names|
    ensures Offset(Items(names), "\n", k + 1) == Offset(Items(names), "\n", k) + |ItemMarkup(names[k])| + 1
  {
    OffsetStep(Items(names), "\n", k);
  }

  /** ... and that character is a newline ... */
  lemma ContentMarkupNewline(names: seq<string>, k: nat)
    requires k + 1 < |names|
    ensures BlockAt(ContentMarkup(names), Offset(Items(names), "\n", k + 1) - 1, "\n")
  {
    JoinNewlineAt(Items(names), k);
  }

  /** ... and the last block ends the content. */
  lemma ContentMarkupEnd(names: seq<string>)
    requires |names| > 0
    ensures |ContentMarkup(names)| ==
      Offset(Items(names), "\n", |names| - 1) + |ItemMarkup(names[|names| - 1])|
  {
    JoinBlockAt(Items(names), "\n", |names| - 1, ItemMarkup(names[|names| - 1]));
  }

  /** With no glyphs the content is empty. */
  lemma ContentMarkupEmpty()
    ensures ContentMarkup([]) == ""
  {
  }

  // ---------------------------------------------------------------------------
  // copyToClipboard: the temporary input on document.body

  /** A child of `document.body`; `id` is the node's identity. */
  datatype Node = Input(id: nat, value: string, readonly: bool) | Element(id: nat)

  /** `r` is `children` with `n` taken out at its first index. */
  ghost predicate RemovedFirst(children: seq<Node>, n: Node, r: seq<Node>) {
    exists i :: 0 <= i < |children| && children[i] == n &&
      n !in children[..i] && r == children[..i] + children[i + 1..]
  }

  /** `children` with the first occurrence of `n` taken out, as `removeChild` does. */
  function Remove(children: seq<Node>, n: Node): (r: seq<Node>)
    ensures n !in children ==> r == children
    ensures n in children ==> RemovedFirst(children, n, r)
    ensures forall m :: m in r ==> m in children
  {
    if children == [] then []
    else if children[0] == n then
      assert children[..0] == [];
      children[1..]
    else
      var rest := Remove(children[1..], n);
      if n in children then RemovedFirstCons(children, n, rest); [children[0]] + rest
      else [children[0]] + rest
  }

  /** Taking `n` out past a first child that is not `n`. */
  lemma RemovedFirstCons(children: seq<Node>, n: Node, rest: seq<Node>)
    requires children != [] && children[0] != n && n in children
    requires n in children[1..] ==> RemovedFirst(children[1..], n, rest)
    ensures RemovedFirst(children, n, [children[0]] + rest)
  {
    var tail := children[1..];
    assert n in tail;
    var i :| 0 <= i < |tail| && tail[i] == n && n !in tail[..i] && rest == tail[..i] + tail[i + 1..];
    SkipHead(children, i, n, rest);
    assert children[i + 1] == n;
  }

  /** Index `i` of `c[1..]` is index `i + 1` of `c`, with `c[0]` in front of the split. */
  lemma SkipHead<T>(c: seq<T>, i: nat, x: T, rest: seq<T>)
    requires i + 1 < |c| && c[0] != x && x !in c[1..][..i]
    requires rest == c[1..][..i] + c[1..][i + 1..]
    ensures x !in c[..i + 1] && [c[0]] + rest == c[..i + 1] + c[i + 2..]
  {
    assert c[..i + 1] == [c[0]] + c[1..][..i];
    assert c[i + 2..] == c[1..][i + 1..];
  }

  /** Removing a node that was just appended, and was not there before, restores the list. */
  lemma {:induction false} RemoveAppended(children: seq<Node>, n: Node)
    requires n !in children
    ensures Remove(children + [n], n) == children
  {
    if children != [] {
      assert (children + [n])[1..] == children[1..] + [n];
      RemoveAppended(children[1..], n);
    }
  }

  class Body {
    var children: seq<Node>
    /** The identity the next created element gets. */
    var nextId: nat

    ghost predicate Valid()
      reads this
    {
      forall n :: n in children ==> n.id < nextId
    }

    constructor ()
      ensures Valid() && children == [] && nextId == 0
    {
      children := [];
      nextId := 0;
    }

    /** `document.createElement('input')` with its `value` and `readonly` attributes set. */
    method CreateInput(value: string) returns (input: Node)
      requires Valid()
      modifies this`nextId
      ensures Valid()
      ensures input == Input(old(nextId), value, true) && nextId == old(nextId) + 1
    {
      input := Input(nextId, value, true);
      nextId := nextId + 1;
    }

    /** `document.body.appendChild(n)` */
    method AppendChild(n: Node)
      requires Valid() && n.id < nextId
      modifies this`children
      ensures Valid() && children == old(children) + [n]
    {
      children := children + [n];
    }

    /** `document.body.removeChild(n)`; the DOM throws unless `n` is a child. */
    method RemoveChild(n: Node)
      requires Valid() && n in children
      modifies this`children
      ensures Valid() && children == Remove(old(children), n)
    {
      children := Remove(children, n);
    }

    /**
     * `copyToClipboard(content)`: the input is appended and then removed again,
     * so the body's children are as they were whether or not `copy` is supported.
     * `copied` tells whether the copy command was issued.
     */
    method CopyToClipboard(content: string, copySupported: bool) returns (copied: bool)
      requires Valid()
      modifies this
      ensures Valid() && children == old(children) && nextId == old(nextId) + 1
      ensures copied == copySupported
    {
      var input := CreateInput(content);
      assert input !in children;
      AppendChild(input);
      copied := false;
      if copySupported {
        copied := true;
      }
      RemoveChild(input);
      RemoveAppended(old(children), input);
    }
  }

  // ---------------------------------------------------------------------------
  // copy: the per-cell "copied!" state machine

  /** The cell's inline `onclick="copy(this)"` handler. */
  datatype Handler = CopyHandler(id: nat)

  /** The callback `copy` hands to `setTimeout`, with what it captured. */
  datatype Restore = Restore(innerHTML: string, onclick: Option<Handler>)

  const CopiedText: string := "copied!"
  const CursorDefault: string := "cursor: default;"
  const CursorPointer: string := "cursor: pointer;"

  /**
   * A clickable text cell. `innerHTML` holds what reading the element's
   * `innerHTML` returns; `timers` holds the callbacks scheduled and not yet run,
   * in the order they fire.
   */
  class Cell {
    var innerHTML: string
    var onclick: Option<Handler>
    var style: string
    var timers: seq<Restore>

    /** A cell as the message handler renders it from markup `m`. */
    constructor (m: string, handler: Handler)
      ensures innerHTML == ReadBack(m) && onclick == Some(handler) && style == "" && timers == []
    {
      innerHTML := ReadBack(m);
      onclick := Some(handler);
      style := "";
      timers := [];
    }

    /** Waiting for a click: the handler is attached and no restore is pending. */
    ghost predicate Idle()
      reads this
    {
      onclick.Some? && timers == []
    }

    /**
     * `copy(self)`: copies the unescaped text, shows "copied!", detaches the
     * handler, sets the default cursor and schedules the restore.
     */
    method Copy(body: Body, copySupported: bool) returns (value: string)
      requires body.Valid()
      modifies this, body
      ensures value == Unescape(old(innerHTML))
      ensures innerHTML == CopiedText && onclick == None && style == CursorDefault
      ensures timers == old(timers) + [Restore(old(innerHTML), old(onclick))]
      ensures body.Valid() && body.children == old(body.children)
    {
      var saved := innerHTML;
      value := Unescape(saved);
      var _ := body.CopyToClipboard(value, copySupported);
      innerHTML := CopiedText;
      var cb := onclick;
      onclick := None;
      style := CursorDefault;
      timers := timers + [Restore(saved, cb)];
    }

    /**
     * A click on the cell: it runs `copy` only while the handler is attached,
     * so a click between `copy` and its restore changes nothing.
     */
    method Click(body: Body, copySupported: bool) returns (value: Option<string>)
      requires body.Valid()
      modifies this, body
      ensures body.Valid() && body.children == old(body.children)
      ensures old(onclick).None? ==>
        value.None? && innerHTML == old(innerHTML) && onclick == None &&
        style == old(style) && timers == old(timers)
      ensures old(onclick).Some? ==>
        value == Some(Unescape(old(innerHTML))) &&
        innerHTML == CopiedText && onclick == None && style == CursorDefault &&
        timers == old(timers) + [Restore(old(innerHTML), old(onclick))]
    {
      if onclick.None? {
        value := None;
      } else {
        var v := Copy(body, copySupported);
        value := Some(v);
      }
    }

    /** The 500 ms timer fires: the oldest pending restore puts back text, handler and pointer cursor. */
    method TimerFire()
      requires timers != []
      modifies this
      ensures innerHTML == old(timers[0].innerHTML) && onclick == old(timers[0].onclick)
      ensures style == CursorPointer && timers == old(timers[1..])
    {
      var t := timers[0];
      timers := timers[1..];
      innerHTML := t.innerHTML;
      onclick := t.onclick;
      style := CursorPointer;
    }
  }

  /**
   * One feedback cycle on an idle cell: click, a second click while "copied!"
   * is shown, then the timer. The first click copies the unescaped text, the
   * second does nothing, and afterwards text and handler are those from before
   * the click, with the pointer cursor.
   */
  method CopyCycle(cell: Cell, body: Body, copySupported: bool) returns (value: Option<string>)
    requires cell.Idle() && body.Valid()
    modifies cell, body
    ensures value == Some(Unescape(old(cell.innerHTML)))
    ensures cell.Idle() && cell.innerHTML == old(cell.innerHTML) && cell.onclick == old(cell.onclick)
    ensures cell.style == CursorPointer
    ensures body.Valid() && body.children == old(body.children)
  {
    value := cell.Click(body, copySupported);
    assert cell.innerHTML == CopiedText && cell.onclick == None && |cell.timers| == 1;
    var again := cell.Click(body, copySupported);
    assert again.None?;
    cell.TimerFire();
  }

  /**
   * Clicking the left cell of a glyph's block copies the glyph's reference,
   * and the cell then shows what it showed before.
   */
  method CopyLeftCellOfGlyph(cp: nat, body: Body, copySupported: bool) returns (value: Option<string>)
    requires body.Valid()
    modifies body
    ensures value == Some(TtfPreview.GlyphRef(cp))
    ensures body.Valid() && body.children == old(body.children)
  {
    var cell := new Cell(LeftCell(TtfPreview.GlyphRef(cp)), CopyHandler(0));
    CopyGlyphRef(cp);
    value := CopyCycle(cell, body, copySupported);
  }
}
