/**
 * The logic of the extension host side (TTFEditorProvider): the glyph-table
 * walk that turns each mapped glyph into an HTML numeric character reference,
 * the byte-by-byte buffer copy, and the 32-character nonce.
 *
 * The parsed font is replaced by its glyph table, a sequence whose entry `i`
 * is the `unicode` field of glyph `i` (`None` where it is `undefined`).
 */
module TtfPreview {
  import opened Options
  import opened Hex

  type GlyphTable = seq<Option<nat>>

  /** A byte of a `Uint8Array`. */
  newtype byte = x: int | 0 <= x < 256

  /** JavaScript truthiness of `glyph.unicode`: present and not 0. */
  predicate Truthy(u: Option<nat>) {
    u.Some? && u.value != 0
  }

  /** The entry pushed for a glyph with codepoint `cp`: `&#x${cp.toString(16)};` */
  function GlyphRef(cp: nat): (r: string)
    ensures |r| >= 5 && r[..3] == "&#x" && r[|r| - 1] == ';'
    ensures IsCanonical(r[3..|r| - 1]) && ParseHex(r[3..|r| - 1]) == cp
    ensures cp > 0 ==> r[3] != '0'
  {
    ParseToHex(cp);
    var r := "&#x" + ToHex(cp) + ";";
    assert r[3..|r| - 1] == ToHex(cp);
    r
  }

  /** What the loop has pushed after visiting the whole of `g`, in index order. */
  function GlyphRefs(g: GlyphTable): (r: seq<string>)
    ensures |r| <= |g|
    ensures (forall i :: 0 <= i < |g| ==> !Truthy(g[i])) ==> r == []
  {
    if g == [] then []
    else
      var last := g[|g| - 1];
      GlyphRefs(g[..|g| - 1]) + (if Truthy(last) then [GlyphRef(last.value)] else [])
  }

  /** The indices of the glyphs that the loop keeps, in index order. */
  function KeptIndices(g: GlyphTable): seq<nat> {
    if g == [] then []
    else KeptIndices(g[..|g| - 1]) + (if Truthy(g[|g| - 1]) then [|g| - 1] else [])
  }

  /**
   * The kept indices are exactly the indices of the truthy glyphs, each once,
   * in ascending order; so there are at most as many of them as glyphs.
   */
  lemma {:induction false} KeptIndicesExact(g: GlyphTable)
    ensures forall k :: 0 <= k < |KeptIndices(g)| ==>
      KeptIndices(g)[k] < |g| && Truthy(g[KeptIndices(g)[k]])
    ensures forall i :: 0 <= i < |g| && Truthy(g[i]) ==> i in KeptIndices(g)
    ensures forall k, l :: 0 <= k < l < |KeptIndices(g)| ==> KeptIndices(g)[k] < KeptIndices(g)[l]
    ensures |KeptIndices(g)| <= |g|
  {
    if g != [] {
      var p := g[..|g| - 1];
      KeptIndicesExact(p);
      forall i | 0 <= i < |p| ensures p[i] == g[i] { }
    }
  }

  /** Entry `k` of the result is the reference of the `k`-th kept glyph. */
  lemma {:induction false} GlyphRefsByIndex(g: GlyphTable)
    ensures |GlyphRefs(g)| == |KeptIndices(g)|
    ensures forall k :: 0 <= k < |GlyphRefs(g)| ==>
      KeptIndices(g)[k] < |g| && g[KeptIndices(g)[k]].Some? &&
      GlyphRefs(g)[k] == GlyphRef(g[KeptIndices(g)[k]].value)
  {
    if g != [] {
      var p := g[..|g| - 1];
      GlyphRefsByIndex(p);
      KeptIndicesExact(p);
      forall i | 0 <= i < |p| ensures p[i] == g[i] { }
    }
  }

  /** The only glyph refs the walk emits are the references of truthy glyphs; with their count. */
  lemma {:induction false} GlyphRefsFilter(g: GlyphTable)
    ensures |GlyphRefs(g)| <= |g|
    ensures forall e :: e in GlyphRefs(g) ==>
      exists i :: 0 <= i < |g| && Truthy(g[i]) && e == GlyphRef(g[i].value)
    ensures forall i :: 0 <= i < |g| && Truthy(g[i]) ==> GlyphRef(g[i].value) in GlyphRefs(g)
  {
    GlyphRefsByIndex(g);
    KeptIndicesExact(g);
    var refs, kept := GlyphRefs(g), KeptIndices(g);
    forall e | e in refs
      ensures exists i :: 0 <= i < |g| && Truthy(g[i]) && e == GlyphRef(g[i].value)
    {
      var k :| 0 <= k < |refs| && refs[k] == e;
      assert Truthy(g[kept[k]]);
    }
    forall i | 0 <= i < |g| && Truthy(g[i]) ensures GlyphRef(g[i].value) in refs {
      var k :| 0 <= k < |kept| && kept[k] == i;
      assert refs[k] == GlyphRef(g[i].value);
    }
  }

  /** A two-glyph font: one glyph mapped to U+E001, one without a mapping. */
  lemma OneMappedGlyph()
    ensures GlyphRefs([Some(0xE001), None]) == ["&#xe001;"]
  {
    var g: GlyphTable := [Some(0xE001), None];
    assert ToHex(0xE001) == "e001" by {
      assert ToHex(0xE) == "e";
      assert ToHex(0xE0) == ToHex(0xE) + [Digits[0]];
      assert ToHex(0xE00) == ToHex(0xE0) + [Digits[0]];
      assert ToHex(0xE001) == ToHex(0xE00) + [Digits[1]];
    }
    assert g[..1] == [Some(0xE001)] && g[..1][..0] == [];
    assert GlyphRefs(g[..1]) == [GlyphRef(0xE001)];
    assert GlyphRefs(g) == GlyphRefs(g[..1]);
    assert GlyphRef(0xE001) == "&#xe001;";
  }

  /** The glyph loop of `resolveCustomEditor`: pushes one reference per truthy glyph. */
  method ExtractGlyphRefs(glyphs: GlyphTable) returns (unicodeName: seq<string>)
    ensures unicodeName == GlyphRefs(glyphs)
  {
    unicodeName := [];
    var i := 0;
    while i < |glyphs|
      invariant 0 <= i <= |glyphs|
      invariant unicodeName == GlyphRefs(glyphs[..i])
    {
      var glyph := glyphs[i];
      assert glyphs[..i + 1][..i] == glyphs[..i];
      if Truthy(glyph) {
        unicodeName := unicodeName + [GlyphRef(glyph.value)];
      }
      i := i + 1;
    }
    assert glyphs[..i] == glyphs;
  }

  /**
   * The `try` block of `resolveCustomEditor`: `parsed` is `None` when
   * `openType.parse` throws, in which case the list that is posted stays empty.
   */
  method ResolveNames(parsed: Option<GlyphTable>) returns (names: seq<string>)
    ensures parsed.None? ==> names == []
    ensures parsed.Some? ==> names == GlyphRefs(parsed.value)
  {
    names := [];
    if parsed.Some? {
      names := ExtractGlyphRefs(parsed.value);
    }
  }

  /** `nodeBufferToArrayBuffer`: a new array holding a copy of the input's bytes. */
  method NodeBufferToArrayBuffer(buffer: array<byte>) returns (view: array<byte>)
    ensures fresh(view)
    ensures view.Length == buffer.Length
    ensures view[..] == buffer[..]
  {
    view := new byte[buffer.Length];
    var i := 0;
    while i < buffer.Length
      invariant 0 <= i <= buffer.Length
      invariant view[..i] == buffer[..i]
    {
      view[i] := buffer[i];
      i := i + 1;
    }
    assert view[..] == view[..i];
  }

  /** The 62 characters a nonce is drawn from. */
  const Possible: string := "ABCDEFGHIJKLMNOPQRSTUVWXYZabcdefghijklmnopqrstuvwxyz0123456789"

  const NonceLength: nat := 32

  /**
   * `getNonce`: `draws[i]` stands for `Math.floor(Math.random() * possible.length)`
   * on the `i`-th turn of the loop, so each is an index into the alphabet.
   */
  method GetNonce(draws: seq<nat>) returns (text: string)
    requires |draws| == NonceLength
    requires forall i :: 0 <= i < |draws| ==> draws[i] < |Possible|
    ensures |text| == NonceLength
    ensures forall i :: 0 <= i < |text| ==> text[i] == Possible[draws[i]]
  {
    text := "";
    for i := 0 to NonceLength
      invariant |text| == i
      invariant forall j :: 0 <= j < i ==> text[j] == Possible[draws[j]]
    {
      text := text + [Possible[draws[i]]];
    }
  }
}
