/**
 * `image::convert`: an `image` element with a usable `xlink:href` becomes
 * an `Image` node. The href is either a `data:image/…;base64,` URL, whose
 * payload is decoded, or a file name, resolved against the document's own
 * directory and accepted only when the file starts with the PNG or JPEG
 * signature. Decoding and the file system come in through the `Env`.
 */
module ImageConv {
  import opened Wrappers
  import opened SvgTypes
  import opened Dom
  import opened Traits
  import T = TreeNode
  import R = RenderTree
  import CB = ConvertBase

  const DataPrefix: string := "data:image/"

  /** `find(',')`: the index of the first comma. */
  function FindComma(s: string): (r: Option<nat>)
    ensures r.None? <==> ',' !in s
    ensures r.Some? ==> r.value < |s| && s[r.value] == ',' && ',' !in s[..r.value]
  {
    if s == [] then Option.None
    else if s[0] == ',' then Some(0)
    else
      match FindComma(s[1..])
      case Some(i) =>
        assert s[..i + 1] == [s[0]] + s[1..][..i];
        Some(i + 1)
      case None => Option.None
  }

  /** A comma-free prefix moves the first comma along by its length. */
  lemma {:induction false} FindCommaAfter(p: string, s: string)
    requires ',' !in p
    ensures FindComma(p + s) == if FindComma(s).Some? then Some(|p| + FindComma(s).value) else Option.None
    decreases |p|
  {
    if p != [] {
      assert (p + s)[0] == p[0];
      assert (p + s)[1..] == p[1..] + s;
      FindCommaAfter(p[1..], s);
    } else {
      assert p + s == s;
    }
  }

  /** The prefix holds no comma, so the first comma of a data URL comes after it: `href[11..idx]` is in range. */
  lemma CommaAfterPrefix(href: string)
    requires DataPrefix <= href && FindComma(href).Some?
    ensures FindComma(href).value >= |DataPrefix|
  {
    assert href == DataPrefix + href[|DataPrefix|..];
    FindCommaAfter(DataPrefix, href[|DataPrefix|..]);
  }

  /** The media type and encoding between the prefix and the comma. */
  function KindOf(tag: string): (r: Option<T.ImageDataKind>)
    ensures r == Some(T.PNG) <==> tag == "png;base64"
    ensures r == Some(T.JPEG) <==> tag == "jpg;base64" || tag == "jpeg;base64"
  {
    if tag == "jpg;base64" || tag == "jpeg;base64" then Some(T.JPEG)
    else if tag == "png;base64" then Some(T.PNG)
    else Option.None
  }

  const PngSignature: seq<bv8> := [0x89, 0x50, 0x4E, 0x47, 0x0D, 0x0A, 0x1A, 0x0A]
  const JpegSignature: seq<bv8> := [0xFF, 0xD8, 0xFF]

  /**
   * `is_valid_image_format` on the file's contents: eight bytes must be
   * readable, and they start with one of the two signatures.
   */
  predicate ValidImageFormat(d: seq<bv8>)
  {
    |d| >= 8 && (d[..8] == PngSignature || d[..3] == JpegSignature)
  }

  /** The file an href names: joined to the document's directory when the document has a path. */
  function FilePath(href: string, env: CB.Env): string
  {
    match env.docPath
    case Some(p) => env.joinParent(p, href)
    case None => href
  }

  /** `get_href_data`. */
  function HrefData(href: string, env: CB.Env): (r: Option<T.ImageData>)
    ensures r.Some? && r.value.Raw? ==> DataPrefix <= href
    ensures r.Some? && r.value.ImagePath? ==>
              !(DataPrefix <= href) && r.value.path == FilePath(href, env)
              && env.files(r.value.path).Some? && ValidImageFormat(env.files(r.value.path).value)
  {
    if DataPrefix <= href then
      var idx := FindComma(href);
      if idx.None? then Option.None
      else
        CommaAfterPrefix(href);
        var kind := KindOf(href[|DataPrefix|..idx.value]);
        var data := env.decode(href[idx.value + 1..]);
        if kind.Some? && data.Some? then Some(T.Raw(data.value, kind.value)) else Option.None
    else
      var path := FilePath(href, env);
      match env.files(path)
      case Some(bytes) => if ValidImageFormat(bytes) then Some(T.ImagePath(path)) else Option.None
      case None => Option.None
  }

  /**
   * A data URL `data:image/<tag>,<payload>` with no comma in the tag gives
   * raw data exactly when the tag names PNG or JPEG with base64 and the
   * payload decodes; the data is what the payload decodes to.
   */
  lemma DataUrl(tag: string, payload: string, env: CB.Env)
    requires ',' !in tag
    ensures var r := HrefData(DataPrefix + tag + "," + payload, env);
            (r.Some? <==> KindOf(tag).Some? && env.decode(payload).Some?)
            && (r.Some? ==> r.value == T.Raw(env.decode(payload).value, KindOf(tag).value))
  {
    var href := DataPrefix + tag + "," + payload;
    assert DataPrefix <= href;
    var i := |DataPrefix| + |tag|;
    assert href == (DataPrefix + tag) + ("," + payload);
    FindCommaAfter(DataPrefix + tag, "," + payload);
    assert href[|DataPrefix|..i] == tag;
    assert href[i + 1..] == payload;
  }

  /** A file shorter than eight bytes is refused, even one that starts with the JPEG signature. */
  lemma ShortFileRefused(href: string, env: CB.Env)
    requires !(DataPrefix <= href)
    requires env.files(FilePath(href, env)).Some? && |env.files(FilePath(href, env)).value| < 8
    ensures HrefData(href, env).None?
  {
  }

  /** `is_valid_image_format`: an eight-byte buffer filled by `read_exact`, then compared. */
  method IsValidImageFormat(file: Option<seq<bv8>>) returns (ok: bool)
    ensures ok == (file.Some? && ValidImageFormat(file.value))
  {
    if file.None? {
      return false;
    }
    var data := file.value;
    if |data| < 8 {
      return false;
    }
    var d := new bv8[8](_ => 0);
    for i := 0 to 8
      invariant d[..i] == data[..i]
    {
      d[i] := data[i];
    }
    assert d[..3] == data[..3];
    ok := d[..] == PngSignature || d[..3] == JpegSignature;
  }

  /** `get_href_data`, with the file check done by `IsValidImageFormat`. */
  method GetHrefData(href: string, env: CB.Env) returns (r: Option<T.ImageData>)
    ensures r == HrefData(href, env)
  {
    if DataPrefix <= href {
      var idx := FindComma(href);
      if idx.None? {
        return Option.None;
      }
      CommaAfterPrefix(href);
      var kind := KindOf(href[|DataPrefix|..idx.value]);
      if kind.None? {
        return Option.None;
      }
      var data := env.decode(href[idx.value + 1..]);
      if data.None? {
        return Option.None;
      }
      return Some(T.Raw(data.value, kind.value));
    }
    var path := FilePath(href, env);
    var ok := IsValidImageFormat(env.files(path));
    if ok {
      return Some(T.ImagePath(path));
    }
    return Option.None;
  }

  /** The `Image` node of `n` with the given data. */
  function ImageOf(n: Node, data: T.ImageData): T.Image
  {
    T.Image(n.id, CB.TransformOr(n, AId.Transform), T.ViewBox(CB.ConvertRect(n), CB.ConvertAspect(n)), data)
  }

  /** The href, when it is a string value. */
  function Href(n: Node): (r: Option<string>)
    ensures r.Some? <==> AId.Href in n.attrs && n.attrs[AId.Href].String?
  {
    if AId.Href in n.attrs && n.attrs[AId.Href].String? then Some(n.attrs[AId.Href].s) else Option.None
  }

  /**
   * `convert`: an image node is appended under `p` exactly when the href is
   * a string and its data can be had; otherwise the tree is unchanged.
   */
  function Converted(a: R.Arena, n: Node, p: R.NodeId, env: CB.Env): (r: R.Arena)
    requires R.Sound(a) && p < |a.kinds|
    ensures R.Sound(r) && R.Below(a, r, p) && R.NoNewDefinitions(a, r)
    ensures |r.kinds| > |a.kinds| <==> Href(n).Some? && HrefData(Href(n).value, env).Some?
    ensures |r.kinds| == |a.kinds| ==> r == a
    ensures |r.kinds| > |a.kinds| ==>
              r.kinds == a.kinds + [T.ImageKind(ImageOf(n, HrefData(Href(n).value, env).value))]
              && r.kids[p] == a.kids[p] + [|a.kinds|]
  {
    var data := if Href(n).Some? then HrefData(Href(n).value, env) else Option.None;
    if data.Some? then
      var k := T.ImageKind(ImageOf(n, data.value));
      R.AppendedSound(a, p, k);
      R.AppendedBelow(a, p, k);
      R.Appended(a, p, k)
    else
      R.BelowRefl(a, p);
      a
  }

  /** `convert` on the tree in place. */
  method Convert(t: R.Tree, n: Node, p: R.NodeId, env: CB.Env)
    requires R.Sound(t.State()) && p < |t.kinds|
    modifies t
    ensures t.State() == Converted(old(t.State()), n, p, env)
  {
    var href := Href(n);
    if href.None? {
      return;
    }
    var data := GetHrefData(href.value, env);
    if data.Some? {
      var _ := t.AppendChild(p, T.ImageKind(ImageOf(n, data.value)));
    }
  }
}
