/*
 * The macOS platform object (crates/gpui/src/platform/mac/platform.rs):
 * the clipboard, which keeps a string's metadata beside it under a hash of
 * the text; the application and dock menus, whose items find their action
 * through a numeric tag; and the save panel's repair of a doubled file
 * extension.
 *
 * The pasteboard is a map from pasteboard type to bytes. Rust `String`s
 * are their UTF-8 bytes (section 4 of RFC 3629); `ClipboardString::text_hash`
 * and the image hash are parameters.
 */
module MacPlatform {
  import opened Wrappers
  import opened MacInput
  import MacEvents

  type byte = x: int | 0 <= x < 0x100
  type u64 = x: int | 0 <= x < 0x1_0000_0000_0000_0000

  // ---------------------------------------------------------------------
  // UTF-8 (section 4 of RFC 3629)
  // ---------------------------------------------------------------------

  predicate Continuation(b: byte) { 0x80 <= b <= 0xBF }

  /**
   * The length of the well-formed scalar value that starts `s`, or 0 when
   * `s` does not start with one.
   */
  function ScalarWidth(s: seq<byte>): (n: nat)
    ensures n <= |s| && n <= 4
  {
    if |s| == 0 then 0
    else if s[0] < 0x80 then 1
    else if 0xC2 <= s[0] <= 0xDF then
      if |s| >= 2 && Continuation(s[1]) then 2 else 0
    else if s[0] == 0xE0 then
      if |s| >= 3 && 0xA0 <= s[1] <= 0xBF && Continuation(s[2]) then 3 else 0
    else if (0xE1 <= s[0] <= 0xEC) || (0xEE <= s[0] <= 0xEF) then
      if |s| >= 3 && Continuation(s[1]) && Continuation(s[2]) then 3 else 0
    else if s[0] == 0xED then
      if |s| >= 3 && 0x80 <= s[1] <= 0x9F && Continuation(s[2]) then 3 else 0
    else if s[0] == 0xF0 then
      if |s| >= 4 && 0x90 <= s[1] <= 0xBF && Continuation(s[2]) && Continuation(s[3]) then 4 else 0
    else if 0xF1 <= s[0] <= 0xF3 then
      if |s| >= 4 && Continuation(s[1]) && Continuation(s[2]) && Continuation(s[3]) then 4 else 0
    else if s[0] == 0xF4 then
      if |s| >= 4 && 0x80 <= s[1] <= 0x8F && Continuation(s[2]) && Continuation(s[3]) then 4 else 0
    else 0
  }

  /** `s` is a sequence of well-formed scalar values. */
  predicate ValidUtf8(s: seq<byte>)
    decreases |s|
  {
    |s| == 0 || (ScalarWidth(s) > 0 && ValidUtf8(s[ScalarWidth(s)..]))
  }

  /** What a Rust `String` holds. */
  type Utf8 = s: seq<byte> | ValidUtf8(s) witness []

  /** A scalar at the head of `s` is read the same when more bytes follow. */
  lemma ScalarWidthPrefix(s: seq<byte>, t: seq<byte>)
    requires ScalarWidth(s) > 0
    ensures ScalarWidth(s + t) == ScalarWidth(s)
  {
    assert forall i :: 0 <= i < |s| ==> (s + t)[i] == s[i];
  }

  /** Two strings put together are a string. */
  lemma {:induction false} Utf8Concat(a: seq<byte>, b: seq<byte>)
    requires ValidUtf8(a) && ValidUtf8(b)
    ensures ValidUtf8(a + b)
    decreases |a|
  {
    if |a| == 0 {
      assert a + b == b;
    } else {
      var n := ScalarWidth(a);
      ScalarWidthPrefix(a, b);
      assert (a + b)[n..] == a[n..] + b;
      Utf8Concat(a[n..], b);
    }
  }

  /** The replacement character U+FFFD. */
  const Replacement: seq<byte> := [0xEF, 0xBF, 0xBD]

  /**
   * The length of the maximal ill-formed part at the head of `s`: the lead
   * byte and the continuation bytes that could still have completed it.
   */
  function InvalidWidth(s: seq<byte>): (n: nat)
    requires |s| > 0 && ScalarWidth(s) == 0
    ensures 1 <= n <= |s|
  {
    var (lo, hi, width) :=
      if 0xC2 <= s[0] <= 0xDF then (0x80, 0xBF, 2)
      else if s[0] == 0xE0 then (0xA0, 0xBF, 3)
      else if (0xE1 <= s[0] <= 0xEC) || (0xEE <= s[0] <= 0xEF) then (0x80, 0xBF, 3)
      else if s[0] == 0xED then (0x80, 0x9F, 3)
      else if s[0] == 0xF0 then (0x90, 0xBF, 4)
      else if 0xF1 <= s[0] <= 0xF3 then (0x80, 0xBF, 4)
      else if s[0] == 0xF4 then (0x80, 0x8F, 4)
      else (0, 0, 1);
    if width == 1 || |s| < 2 || !(lo <= s[1] <= hi) then 1
    else if |s| < 3 || !Continuation(s[2]) then 2
    else 3
  }

  /**
   * `String::from_utf8_lossy`: every maximal ill-formed part becomes one
   * replacement character, well-formed scalars are kept.
   */
  function Lossy(s: seq<byte>): (r: seq<byte>)
    decreases |s|
  {
    if |s| == 0 then []
    else if ScalarWidth(s) > 0 then s[..ScalarWidth(s)] + Lossy(s[ScalarWidth(s)..])
    else Replacement + Lossy(s[InvalidWidth(s)..])
  }

  /** The scalar at the head of `s`, on its own, is a string. */
  lemma HeadScalarIsUtf8(s: seq<byte>)
    requires ScalarWidth(s) > 0
    ensures ValidUtf8(s[..ScalarWidth(s)])
  {
    var n := ScalarWidth(s);
    var head := s[..n];
    assert head + s[n..] == s;
    ScalarWidthPrefix(head, s[n..]);
    assert head[n..] == [];
  }

  lemma ReplacementIsUtf8()
    ensures ValidUtf8(Replacement)
  {
    assert ScalarWidth(Replacement) == 3;
    assert Replacement[3..] == [];
  }

  /** Lossy decoding always gives a string. */
  lemma {:induction false} LossyIsUtf8(s: seq<byte>)
    ensures ValidUtf8(Lossy(s))
    decreases |s|
  {
    if |s| > 0 {
      var n := ScalarWidth(s);
      if n > 0 {
        LossyIsUtf8(s[n..]);
        HeadScalarIsUtf8(s);
        Utf8Concat(s[..n], Lossy(s[n..]));
      } else {
        var k := InvalidWidth(s);
        LossyIsUtf8(s[k..]);
        ReplacementIsUtf8();
        Utf8Concat(Replacement, Lossy(s[k..]));
      }
    }
  }

  /** Lossy decoding keeps a string as it is. */
  lemma {:induction false} LossyKeepsUtf8(s: seq<byte>)
    requires ValidUtf8(s)
    ensures Lossy(s) == s
    decreases |s|
  {
    if |s| > 0 {
      var n := ScalarWidth(s);
      LossyKeepsUtf8(s[n..]);
      assert s[..n] + s[n..] == s;
    }
  }

  /** Bytes read as a Rust `String`, lossily. */
  function Decoded(s: seq<byte>): Utf8
  {
    LossyIsUtf8(s);
    Lossy(s)
  }

  // ---------------------------------------------------------------------
  // u64::to_be_bytes / u64::from_be_bytes
  // ---------------------------------------------------------------------

  /** The last `n` base-256 digits of `x`, most significant first. */
  function BeBytes(x: nat, n: nat): (r: seq<byte>)
    ensures |r| == n
  {
    if n == 0 then [] else BeBytes(x / 0x100, n - 1) + [x % 0x100]
  }

  /** The number whose base-256 digits, most significant first, are `b`. */
  function BeValue(b: seq<byte>): nat
  {
    if |b| == 0 then 0 else BeValue(b[..|b| - 1]) * 0x100 + b[|b| - 1]
  }

  function Pow256(n: nat): (p: nat)
    ensures p > 0
  {
    if n == 0 then 1 else 0x100 * Pow256(n - 1)
  }

  /** Writing a number's digits and reading them back gives the number. */
  lemma {:induction false} BeRoundTrip(x: nat, n: nat)
    requires x < Pow256(n)
    ensures BeValue(BeBytes(x, n)) == x
  {
    if n > 0 {
      var q := x / 0x100;
      assert q < Pow256(n - 1);
      BeRoundTrip(q, n - 1);
      var b := BeBytes(x, n);
      assert b[..n - 1] == BeBytes(q, n - 1);
    }
  }

  /** Reading digits and writing the number back gives the digits. */
  lemma {:induction false} BeValueRoundTrip(b: seq<byte>)
    ensures BeValue(b) < Pow256(|b|)
    ensures BeBytes(BeValue(b), |b|) == b
  {
    if |b| > 0 {
      var init := b[..|b| - 1];
      BeValueRoundTrip(init);
      var v := BeValue(b);
      assert v / 0x100 == BeValue(init) && v % 0x100 == b[|b| - 1];
      assert init + [b[|b| - 1]] == b;
    }
  }

  const U64Bytes := 8

  lemma U64Fits()
    ensures Pow256(U64Bytes) == 0x1_0000_0000_0000_0000
  {
  }

  // ---------------------------------------------------------------------
  // Clipboard
  // ---------------------------------------------------------------------

  /** GPUI's image formats, in the order `ImageFormat::iter` yields them. */
  datatype ImageFormat = Png | Jpeg | Webp | Gif | Svg | Bmp | Tiff

  const ImageFormats: seq<ImageFormat> := [Png, Jpeg, Webp, Gif, Svg, Bmp, Tiff]

  lemma EveryFormatListed(f: ImageFormat)
    ensures f in ImageFormats
  {
    var k := match f
      case Png => 0 case Jpeg => 1 case Webp => 2 case Gif => 3
      case Svg => 4 case Bmp => 5 case Tiff => 6;
    assert ImageFormats[k] == f;
  }

  /**
   * The pasteboard types GPUI reads and writes: plain text, its own types
   * for the text's hash and for the metadata, rich text, and one type per
   * image format.
   */
  datatype PasteboardType = StringType | TextHashType | MetadataType | RtfType | RtfdType | ImageType(format: ImageFormat)

  /**
   * The name each type has on the pasteboard: AppKit's own constants for
   * plain text, rich text, PNG and TIFF, uniform type identifiers for the
   * other images, and GPUI's two private names.
   */
  function TypeName(t: PasteboardType): string
  {
    match t
    case StringType => "public.utf8-plain-text"
    case TextHashType => "zed-text-hash"
    case MetadataType => "zed-metadata"
    case RtfType => "public.rtf"
    case RtfdType => "com.apple.flat-rtfd"
    case ImageType(Png) => "public.png"
    case ImageType(Jpeg) => "public.jpeg"
    case ImageType(Webp) => "org.webmproject.webp"
    case ImageType(Gif) => "com.compuserve.gif"
    case ImageType(Svg) => "public.svg-image"
    case ImageType(Bmp) => "com.microsoft.bmp"
    case ImageType(Tiff) => "public.tiff"
  }

  /** The type a pasteboard name stands for, if GPUI knows it. */
  function TypeOfName(name: string): (r: Option<PasteboardType>)
    ensures r.Some? ==> TypeName(r.value) == name
  {
    if name == "public.utf8-plain-text" then Some(StringType)
    else if name == "zed-text-hash" then Some(TextHashType)
    else if name == "zed-metadata" then Some(MetadataType)
    else if name == "public.rtf" then Some(RtfType)
    else if name == "com.apple.flat-rtfd" then Some(RtfdType)
    else if name == "public.png" then Some(ImageType(Png))
    else if name == "public.jpeg" then Some(ImageType(Jpeg))
    else if name == "org.webmproject.webp" then Some(ImageType(Webp))
    else if name == "com.compuserve.gif" then Some(ImageType(Gif))
    else if name == "public.svg-image" then Some(ImageType(Svg))
    else if name == "com.microsoft.bmp" then Some(ImageType(Bmp))
    else if name == "public.tiff" then Some(ImageType(Tiff))
    else None
  }

  /** Every type has its own name, so a map keyed by type is one keyed by name. */
  lemma TypeNameRoundTrip(t: PasteboardType)
    ensures TypeOfName(TypeName(t)) == Some(t)
  {
  }

  type Pasteboard = map<PasteboardType, seq<byte>>

  datatype ClipboardString = ClipboardString(text: Utf8, metadata: Option<Utf8>)

  datatype Image = Image(format: ImageFormat, bytes: seq<byte>, id: u64)

  datatype ClipboardEntry = StringEntry(str: ClipboardString) | ImageEntry(image: Image)

  datatype ClipboardItem = ClipboardItem(entries: seq<ClipboardEntry>)

  type TextHash = Utf8 -> u64

  type ImageHash = seq<byte> -> u64

  /** The text of every string entry, in order, with nothing between them. */
  function JoinedText(entries: seq<ClipboardEntry>): Utf8
  {
    if |entries| == 0 then []
    else
      var init := JoinedText(entries[..|entries| - 1]);
      var last := entries[|entries| - 1];
      if last.StringEntry? then Utf8Concat(init, last.str.text); init + last.str.text else init
  }

  /** What `write_plaintext_to_clipboard` leaves on a cleared pasteboard. */
  function PlaintextBoard(s: ClipboardString, textHash: TextHash): Pasteboard
  {
    if s.metadata.Some? then
      map[StringType := s.text, TextHashType := BeBytes(textHash(s.text), U64Bytes), MetadataType := s.metadata.value]
    else
      map[StringType := s.text]
  }

  /**
   * What `write_to_clipboard` leaves: nothing for no entry, the one string
   * or image for one entry, and for several entries only their text, put
   * together, without metadata (no entry sets the rich-text flag, so the
   * RTF and RTFD types are never written).
   */
  function Written(item: ClipboardItem, textHash: TextHash): Pasteboard
  {
    if |item.entries| == 0 then map[]
    else if |item.entries| == 1 then
      match item.entries[0]
      case StringEntry(s) => PlaintextBoard(s, textHash)
      case ImageEntry(image) => map[ImageType(image.format) := image.bytes]
    else map[StringType := JoinedText(item.entries)]
  }

  /**
   * `read_string_from_clipboard`: the text, decoded lossily, and the
   * metadata when the stored hash has eight bytes, the metadata is there
   * and is UTF-8, and the hash is the decoded text's hash.
   */
  function ReadString(board: Pasteboard, textBytes: seq<byte>, textHash: TextHash): (r: ClipboardString)
    ensures r.metadata.Some? ==>
      && TextHashType in board && MetadataType in board
      && board[TextHashType] == BeBytes(textHash(r.text), U64Bytes)
      && board[MetadataType] == r.metadata.value
    ensures r.metadata.None? ==>
      || TextHashType !in board || MetadataType !in board || !ValidUtf8(board[MetadataType])
      || board[TextHashType] != BeBytes(textHash(r.text), U64Bytes)
  {
    var text := Decoded(textBytes);
    var metadata: Option<Utf8> :=
      if && TextHashType in board && |board[TextHashType]| == U64Bytes && MetadataType in board
         && BeValue(board[TextHashType]) == textHash(text) && ValidUtf8(board[MetadataType])
      then var m: Utf8 := board[MetadataType]; Some(m) else None;
    HashBytes(if TextHashType in board then board[TextHashType] else [], textHash(text));
    ClipboardString(text, metadata)
  }

  /** Eight stored bytes name a hash exactly when they are its big-endian bytes. */
  lemma HashBytes(b: seq<byte>, h: u64)
    ensures (|b| == U64Bytes && BeValue(b) == h) <==> b == BeBytes(h, U64Bytes)
  {
    U64Fits();
    BeRoundTrip(h, U64Bytes);
    BeValueRoundTrip(b);
  }

  /** The image of the first format, in `formats` order, the pasteboard holds. */
  function ReadImage(board: Pasteboard, formats: seq<ImageFormat>, imageHash: ImageHash): (r: Option<Image>)
    ensures r.None? <==> forall f :: f in formats ==> ImageType(f) !in board
    ensures r.Some? ==>
      && r.value.format in formats && ImageType(r.value.format) in board
      && r.value.bytes == board[ImageType(r.value.format)] && r.value.id == imageHash(r.value.bytes)
  {
    if |formats| == 0 then None
    else if ImageType(formats[0]) in board then
      var bytes := board[ImageType(formats[0])];
      Some(Image(formats[0], bytes, imageHash(bytes)))
    else ReadImage(board, formats[1..], imageHash)
  }

  /** `read_from_clipboard`: a string first, else an image, else nothing. */
  function ReadItem(board: Pasteboard, textHash: TextHash, imageHash: ImageHash): Option<ClipboardItem>
  {
    if StringType in board then
      Some(ClipboardItem([StringEntry(ReadString(board, board[StringType], textHash))]))
    else
      match ReadImage(board, ImageFormats, imageHash)
      case Some(image) => Some(ClipboardItem([ImageEntry(image)]))
      case None => None
  }

  /** The system pasteboard as the platform sees it. */
  class Clipboard {
    var pasteboard: Pasteboard

    constructor ()
      ensures pasteboard == map[]
    {
      pasteboard := map[];
    }

    method WritePlaintext(s: ClipboardString, textHash: TextHash)
      modifies this
      ensures pasteboard == PlaintextBoard(s, textHash)
    {
      pasteboard := map[];
      pasteboard := pasteboard[StringType := s.text];
      if s.metadata.Some? {
        var hash := textHash(s.text);
        pasteboard := pasteboard[TextHashType := BeBytes(hash, U64Bytes)];
        pasteboard := pasteboard[MetadataType := s.metadata.value];
      }
    }

    method WriteImage(image: Image)
      modifies this
      ensures pasteboard == map[ImageType(image.format) := image.bytes]
    {
      pasteboard := map[];
      pasteboard := pasteboard[ImageType(image.format) := image.bytes];
    }

    method WriteToClipboard(item: ClipboardItem, textHash: TextHash)
      modifies this
      ensures pasteboard == Written(item, textHash)
    {
      if |item.entries| <= 1 {
        if |item.entries| == 1 {
          match item.entries[0]
          case StringEntry(s) => WritePlaintext(s, textHash);
          case ImageEntry(image) => WriteImage(image);
        } else {
          pasteboard := map[];
        }
      } else {
        var text: Utf8 := [];
        var i := 0;
        while i < |item.entries|
          invariant 0 <= i <= |item.entries|
          invariant text == JoinedText(item.entries[..i])
        {
          var entry := item.entries[i];
          assert item.entries[..i + 1][..i] == item.entries[..i];
          if entry.StringEntry? {
            Utf8Concat(text, entry.str.text);
            text := text + entry.str.text;
          }
          i := i + 1;
        }
        assert item.entries[..i] == item.entries;
        pasteboard := map[];
        pasteboard := pasteboard[StringType := text];
      }
    }

    /** Tries the string type, then every image format in turn. */
    method ReadFromClipboard(textHash: TextHash, imageHash: ImageHash) returns (r: Option<ClipboardItem>)
      ensures r == ReadItem(pasteboard, textHash, imageHash)
    {
      if StringType in pasteboard {
        return Some(ClipboardItem([StringEntry(ReadString(pasteboard, pasteboard[StringType], textHash))]));
      }
      var i := 0;
      while i < |ImageFormats|
        invariant 0 <= i <= |ImageFormats|
        invariant ReadImage(pasteboard, ImageFormats, imageHash) == ReadImage(pasteboard, ImageFormats[i..], imageHash)
      {
        var format := ImageFormats[i];
        if ImageType(format) in pasteboard {
          var bytes := pasteboard[ImageType(format)];
          return Some(ClipboardItem([ImageEntry(Image(format, bytes, imageHash(bytes)))]));
        }
        assert ImageFormats[i..][1..] == ImageFormats[i + 1..];
        i := i + 1;
      }
      return None;
    }
  }

  /** An empty pasteboard, and one cleared by writing no entry, read as nothing. */
  lemma EmptyReadsNothing(textHash: TextHash, imageHash: ImageHash)
    ensures Written(ClipboardItem([]), textHash) == map[]
    ensures ReadItem(map[], textHash, imageHash) == None
  {
    assert ReadImage(map[], ImageFormats, imageHash).None?;
  }

  /** A string written alone reads back with its metadata. */
  lemma StringRoundTrip(s: ClipboardString, textHash: TextHash, imageHash: ImageHash)
    ensures ReadItem(Written(ClipboardItem([StringEntry(s)]), textHash), textHash, imageHash)
      == Some(ClipboardItem([StringEntry(s)]))
  {
    var board := Written(ClipboardItem([StringEntry(s)]), textHash);
    LossyKeepsUtf8(s.text);
    if s.metadata.Some? {
      U64Fits();
      BeRoundTrip(textHash(s.text), U64Bytes);
    }
    var r := ReadString(board, board[StringType], textHash);
    assert r.text == s.text;
  }

  /** An image written alone reads back, under its content hash. */
  lemma ImageRoundTrip(image: Image, textHash: TextHash, imageHash: ImageHash)
    ensures ReadItem(Written(ClipboardItem([ImageEntry(image)]), textHash), textHash, imageHash)
      == Some(ClipboardItem([ImageEntry(image.(id := imageHash(image.bytes)))]))
  {
    var board := Written(ClipboardItem([ImageEntry(image)]), textHash);
    EveryFormatListed(image.format);
    var r := ReadImage(board, ImageFormats, imageHash);
    assert r.Some?;
    assert r.value.format == image.format;
  }

  /** Several entries read back as one string of their joined text, without metadata. */
  lemma SeveralEntriesReadAsText(item: ClipboardItem, textHash: TextHash, imageHash: ImageHash)
    requires |item.entries| > 1
    ensures ReadItem(Written(item, textHash), textHash, imageHash)
      == Some(ClipboardItem([StringEntry(ClipboardString(JoinedText(item.entries), None))]))
  {
    var text := JoinedText(item.entries);
    LossyKeepsUtf8(text);
  }

  /**
   * When another application replaces the text, the metadata GPUI left
   * behind is returned only if the new text has the old text's hash.
   */
  lemma ReplacedTextDropsMetadata(s: ClipboardString, other: seq<byte>, textHash: TextHash, imageHash: ImageHash)
    requires s.metadata.Some?
    ensures var board := Written(ClipboardItem([StringEntry(s)]), textHash)[StringType := other];
      var text := Decoded(other);
      ReadItem(board, textHash, imageHash) ==
        Some(ClipboardItem([StringEntry(ClipboardString(text, if textHash(text) == textHash(s.text) then s.metadata else None))]))
  {
    var text := Decoded(other);
    var board := Written(ClipboardItem([StringEntry(s)]), textHash)[StringType := other];
    U64Fits();
    BeRoundTrip(textHash(s.text), U64Bytes);
    BeRoundTrip(textHash(text), U64Bytes);
    var r := ReadString(board, other, textHash);
    assert r.text == text;
  }

  // ---------------------------------------------------------------------
  // Menus
  // ---------------------------------------------------------------------

  /** An action a menu item dispatches, by identity. */
  type ActionId = int

  datatype OsAction = Cut | Copy | Paste | SelectAll | Undo | Redo

  datatype SystemMenuType = Services

  datatype MenuItem =
    | Separator
    | Action(name: string, action: ActionId, osAction: Option<OsAction>)
    | Submenu(name: string, items: seq<MenuItem>)
    | SystemMenu(name: string, menuType: SystemMenuType)

  datatype Menu = Menu(name: string, items: seq<MenuItem>)

  /**
   * The selectors a menu item can send; the application delegate routes
   * every one of them to `handle_menu_item`.
   */
  datatype Selector = HandleMenuItemSel | CutSel | CopySel | PasteSel | SelectAllSel

  /** The editing action a standard AppKit selector stands for. */
  function StandardAction(sel: Selector): Option<OsAction>
  {
    match sel
    case CutSel => Some(Cut)
    case CopySel => Some(Copy)
    case PasteSel => Some(Paste)
    case SelectAllSel => Some(SelectAll)
    case HandleMenuItemSel => None
  }

  /**
   * Cut, copy, paste and select-all use AppKit's own selectors, so that the
   * first responder can handle them; undo, redo and every other action go
   * through GPUI's own selector.
   */
  function MenuSelector(osAction: Option<OsAction>): (sel: Selector)
    ensures sel != HandleMenuItemSel <==> osAction.Some? && osAction.value !in {Undo, Redo}
    ensures sel != HandleMenuItemSel ==> StandardAction(sel) == osAction
  {
    match osAction
    case Some(Cut) => CutSel
    case Some(Copy) => CopySel
    case Some(Paste) => PasteSel
    case Some(SelectAll) => SelectAllSel
    case _ => HandleMenuItemSel
  }

  /** The modifier mask of a key equivalent; the function key has no bit. */
  datatype ModifierMask = ModifierMask(command: bool, control: bool, option: bool, shift: bool)

  datatype KeyEquivalent = KeyEquivalent(key: string, mask: ModifierMask)

  /** The modifiers a mask stands for. */
  function MaskModifiers(m: ModifierMask): Modifiers
  {
    Modifiers(m.control, m.option, m.shift, m.command, false)
  }

  /**
   * The key equivalent shown for an action's binding: only a binding of
   * exactly one keystroke gets one, keyed by the keystroke's native
   * character.
   */
  function MenuKeyEquivalent(keystrokes: Option<seq<Keystroke>>): (r: Option<KeyEquivalent>)
    ensures r.Some? <==> keystrokes.Some? && |keystrokes.value| == 1
    ensures r.Some? ==>
      && r.value.key == MacEvents.KeyToNative(keystrokes.value[0].key)
      && MaskModifiers(r.value.mask) == keystrokes.value[0].modifiers.(functionKey := false)
  {
    if keystrokes.Some? && |keystrokes.value| == 1 then
      var k := keystrokes.value[0];
      Some(KeyEquivalent(MacEvents.KeyToNative(k.key),
        ModifierMask(k.modifiers.platform, k.modifiers.control, k.modifiers.alt, k.modifiers.shift)))
    else None
  }

  /** The keystrokes of the binding the keymap offers for an action, if any. */
  type Bindings = ActionId -> Option<seq<Keystroke>>

  /** An AppKit menu item as GPUI builds it. */
  datatype NativeItem =
    | NativeSeparator
    | NativeAction(title: string, selector: Selector, keyEquivalent: Option<KeyEquivalent>, tag: int)
    | NativeSubmenu(title: string, items: seq<NativeItem>, servicesMenu: bool)

  /** The actions of an item and its submenus, in the order they are built. */
  function ItemActions(item: MenuItem): seq<ActionId>
    decreases item, 1
  {
    match item
    case Action(_, action, _) => [action]
    case Submenu(_, items) => ListActions(items)
    case _ => []
  }

  function ListActions(items: seq<MenuItem>): seq<ActionId>
    decreases items, 0
  {
    if |items| == 0 then [] else ListActions(items[..|items| - 1]) + ItemActions(items[|items| - 1])
  }

  /** The actions of the first `n` menus, menu after menu, in the order `set_menus` registers them. */
  function MenusActions(ms: seq<Menu>, n: nat): seq<ActionId>
    requires n <= |ms|
  {
    if n == 0 then [] else MenusActions(ms, n - 1) + ListActions(ms[n - 1].items)
  }

  /**
   * The first `n` submenus of the bar `set_menus` builds: one per menu,
   * tagged from the actions registered before it.
   */
  function MenuBar(ms: seq<Menu>, n: nat, base: nat, bindings: Bindings): (bar: seq<NativeItem>)
    requires n <= |ms|
    ensures |bar| == n
  {
    if n == 0 then []
    else
      MenuBar(ms, n - 1, base, bindings)
        + [NativeSubmenu(ms[n - 1].name, NativeListOf(ms[n - 1].items, base + |MenusActions(ms, n - 1)|, bindings), false)]
  }

  /** Each submenu of the bar holds its menu's items, tagged after the actions of the menus before it. */
  lemma {:induction false} MenuBarAt(ms: seq<Menu>, n: nat, base: nat, bindings: Bindings, i: nat)
    requires i < n <= |ms|
    ensures MenuBar(ms, n, base, bindings)[i]
         == NativeSubmenu(ms[i].name, NativeListOf(ms[i].items, base + |MenusActions(ms, i)|, bindings), false)
  {
    if i < n - 1 {
      MenuBarAt(ms, n - 1, base, bindings, i);
    }
  }

  /** The windows menu `set_menus` records while it walks the first `n` menus. */
  function WindowMenuIndex(ms: seq<Menu>, n: nat): Option<nat>
    requires n <= |ms|
  {
    if n == 0 then None
    else if ms[n - 1].name == "Window" then Some(n - 1)
    else WindowMenuIndex(ms, n - 1)
  }

  /** The windows menu is the last menu named "Window", and there is one exactly when some menu has that name. */
  lemma {:induction false} WindowMenuIsLast(ms: seq<Menu>, n: nat)
    requires n <= |ms|
    ensures var r := WindowMenuIndex(ms, n);
      && (r.Some? <==> exists i :: 0 <= i < n && ms[i].name == "Window")
      && (r.Some? ==>
            && r.value < n && ms[r.value].name == "Window"
            && forall j :: r.value < j < n ==> ms[j].name != "Window")
  {
    if n > 0 && ms[n - 1].name != "Window" {
      WindowMenuIsLast(ms, n - 1);
    }
  }

  /** The native item built for `item` when `base` actions are already registered. */
  function NativeOf(item: MenuItem, base: nat, bindings: Bindings): NativeItem
    decreases item, 1
  {
    match item
    case Separator => NativeSeparator
    case Action(name, action, osAction) =>
      NativeAction(name, MenuSelector(osAction), MenuKeyEquivalent(bindings(action)), base)
    case Submenu(name, items) => NativeSubmenu(name, NativeListOf(items, base, bindings), false)
    case SystemMenu(name, menuType) => NativeSubmenu(name, [], menuType == Services)
  }

  function NativeListOf(items: seq<MenuItem>, base: nat, bindings: Bindings): seq<NativeItem>
    decreases items, 0
  {
    if |items| == 0 then []
    else
      var init := items[..|items| - 1];
      NativeListOf(init, base, bindings) + [NativeOf(items[|items| - 1], base + |ListActions(init)|, bindings)]
  }

  /** The tags of an item's actions, in the order they are built. */
  function Tags(n: NativeItem): seq<int>
  {
    match n
    case NativeAction(_, _, _, tag) => [tag]
    case NativeSubmenu(_, items, _) => ListTags(items)
    case NativeSeparator => []
  }

  function ListTags(ns: seq<NativeItem>): seq<int>
  {
    if |ns| == 0 then [] else ListTags(ns[..|ns| - 1]) + Tags(ns[|ns| - 1])
  }

  /** Tags numbered one by one from `base`. */
  predicate Numbered(tags: seq<int>, base: int)
  {
    forall i :: 0 <= i < |tags| ==> tags[i] == base + i
  }

  lemma {:induction false} ItemTagsNumbered(item: MenuItem, base: nat, bindings: Bindings)
    ensures |Tags(NativeOf(item, base, bindings))| == |ItemActions(item)|
    ensures Numbered(Tags(NativeOf(item, base, bindings)), base)
    decreases item, 1
  {
    match item
    case Submenu(_, items) => ListTagsNumbered(items, base, bindings);
    case _ =>
  }

  lemma {:induction false} ListTagsNumbered(items: seq<MenuItem>, base: nat, bindings: Bindings)
    ensures |ListTags(NativeListOf(items, base, bindings))| == |ListActions(items)|
    ensures Numbered(ListTags(NativeListOf(items, base, bindings)), base)
    decreases items, 0
  {
    if |items| > 0 {
      var init := items[..|items| - 1];
      var last := items[|items| - 1];
      var ns := NativeListOf(items, base, bindings);
      var front := NativeListOf(init, base, bindings);
      var back := NativeOf(last, base + |ListActions(init)|, bindings);
      ListTagsNumbered(init, base, bindings);
      ItemTagsNumbered(last, base + |ListActions(init)|, bindings);
      assert ns[..|ns| - 1] == front && ns[|ns| - 1] == back;
      assert ListTags(ns) == ListTags(front) + Tags(back);
      NumberedConcat(ListTags(front), Tags(back), base);
    }
  }

  lemma NumberedConcat(a: seq<int>, b: seq<int>, base: int)
    requires Numbered(a, base) && Numbered(b, base + |a|)
    ensures Numbered(a + b, base)
  {
    forall i | 0 <= i < |a + b|
      ensures (a + b)[i] == base + i
    {
      if i >= |a| {
        assert (a + b)[i] == b[i - |a|];
      }
    }
  }

  /**
   * Every tag of a built item indexes its own action once the item's
   * actions are appended to those registered before it.
   */
  lemma TagsFindTheirActions(item: MenuItem, before: seq<ActionId>, bindings: Bindings)
    ensures var tags := Tags(NativeOf(item, |before|, bindings));
      var after := before + ItemActions(item);
      && |tags| == |ItemActions(item)|
      && forall i :: 0 <= i < |tags| ==> 0 <= tags[i] < |after| && after[tags[i]] == ItemActions(item)[i]
  {
    ItemTagsNumbered(item, |before|, bindings);
  }

  /** The actions of fewer menus are a prefix of the actions of more. */
  lemma {:induction false} MenusActionsPrefix(ms: seq<Menu>, m: nat, n: nat)
    requires m <= n <= |ms|
    ensures MenusActions(ms, m) <= MenusActions(ms, n)
  {
    if m < n {
      MenusActionsPrefix(ms, m, n - 1);
    }
  }

  /**
   * Every tag in a submenu of the bar `set_menus` builds indexes that
   * menu's own action once all the menus' actions are registered.
   */
  lemma MenuBarTagsFindActions(ms: seq<Menu>, n: nat, before: seq<ActionId>, bindings: Bindings, i: nat)
    requires i < n <= |ms|
    ensures var tags := Tags(MenuBar(ms, n, |before|, bindings)[i]);
      var after := before + MenusActions(ms, n);
      && |tags| == |ListActions(ms[i].items)|
      && forall k :: 0 <= k < |tags| ==> 0 <= tags[k] < |after| && after[tags[k]] == ListActions(ms[i].items)[k]
  {
    var pre, mid, all := MenusActions(ms, i), MenusActions(ms, i + 1), MenusActions(ms, n);
    var own := ListActions(ms[i].items);
    var base := |before| + |pre|;
    var tags := Tags(MenuBar(ms, n, |before|, bindings)[i]);
    MenuBarAt(ms, n, |before|, bindings, i);
    assert tags == ListTags(NativeListOf(ms[i].items, base, bindings));
    ListTagsNumbered(ms[i].items, base, bindings);
    assert mid == pre + own;
    MenusActionsPrefix(ms, i + 1, n);
    assert mid <= all;
    forall k | 0 <= k < |tags|
      ensures 0 <= tags[k] < |before + all| && (before + all)[tags[k]] == own[k]
    {
      assert tags[k] == base + k;
      assert all[|pre| + k] == mid[|pre| + k] == own[k];
    }
  }

  /** NSInteger, the type of a menu item's tag. */
  type NSInteger = x: int | -0x8000_0000_0000_0000 <= x < 0x8000_0000_0000_0000

  /**
   * The action a tag selects: the tag, cast to `usize`, indexes the
   * registered actions. A negative tag wraps past any vector's length.
   */
  function MenuActionFor(actions: seq<ActionId>, tag: NSInteger): (r: Option<ActionId>)
    requires |actions| < 0x8000_0000_0000_0000
    ensures r.Some? <==> 0 <= tag < |actions|
    ensures r.Some? ==> r.value == actions[tag]
  {
    var index := if tag < 0 then tag + 0x1_0000_0000_0000_0000 else tag;
    if index < |actions| then Some(actions[index]) else None
  }

  /**
   * The platform's menu state: the actions every menu item built so far
   * dispatches, by tag, and whether the menu callbacks are registered.
   */
  class MenuState {
    var menuActions: seq<ActionId>
    var menuCommand: bool
    var validateMenuCommand: bool
    var mainMenu: seq<NativeItem>
    var windowsMenu: Option<nat>
    var menus: Option<seq<Menu>>
    var dockMenu: Option<seq<NativeItem>>

    constructor ()
      ensures menuActions == [] && !menuCommand && !validateMenuCommand
      ensures mainMenu == [] && windowsMenu.None? && menus.None? && dockMenu.None?
    {
      menuActions := [];
      menuCommand := false;
      validateMenuCommand := false;
      mainMenu := [];
      windowsMenu := None;
      menus := None;
      dockMenu := None;
    }

    /** `create_menu_item_typed`: an action takes the next tag and is registered. */
    method CreateMenuItem(item: MenuItem, bindings: Bindings) returns (native: NativeItem)
      modifies this`menuActions
      ensures menuActions == old(menuActions) + ItemActions(item)
      ensures native == NativeOf(item, |old(menuActions)|, bindings)
      ensures unchanged(this`mainMenu, this`windowsMenu, this`menus, this`dockMenu)
      ensures menuCommand == old(menuCommand) && validateMenuCommand == old(validateMenuCommand)
      decreases item, 1
    {
      match item
      case Separator =>
        native := NativeSeparator;
      case Action(name, action, osAction) =>
        var tag := |menuActions|;
        native := NativeAction(name, MenuSelector(osAction), MenuKeyEquivalent(bindings(action)), tag);
        menuActions := menuActions + [action];
      case Submenu(name, items) =>
        var children := CreateMenuItems(items, bindings);
        native := NativeSubmenu(name, children, false);
      case SystemMenu(name, menuType) =>
        native := NativeSubmenu(name, [], menuType == Services);
    }

    /** Builds the items of one menu in order. */
    method CreateMenuItems(items: seq<MenuItem>, bindings: Bindings) returns (natives: seq<NativeItem>)
      modifies this`menuActions
      ensures menuActions == old(menuActions) + ListActions(items)
      ensures natives == NativeListOf(items, |old(menuActions)|, bindings)
      ensures unchanged(this`mainMenu, this`windowsMenu, this`menus, this`dockMenu)
      ensures menuCommand == old(menuCommand) && validateMenuCommand == old(validateMenuCommand)
      decreases items, 0
    {
      var base := |menuActions|;
      natives := [];
      var i := 0;
      while i < |items|
        invariant 0 <= i <= |items|
        invariant menuActions == old(menuActions) + ListActions(items[..i])
        invariant natives == NativeListOf(items[..i], base, bindings)
      {
        assert items[..i + 1][..i] == items[..i];
        var native := CreateMenuItem(items[i], bindings);
        natives := natives + [native];
        i := i + 1;
      }
      assert items[..i] == items;
    }

    /** The top-level item wrapping one menu of the menu bar. */
    method CreateTopLevelItem(menu: Menu, bindings: Bindings) returns (item: NativeItem)
      modifies this`menuActions
      ensures menuActions == old(menuActions) + ListActions(menu.items)
      ensures item == NativeSubmenu(menu.name, NativeListOf(menu.items, |old(menuActions)|, bindings), false)
      ensures unchanged(this`mainMenu, this`windowsMenu, this`menus, this`dockMenu)
      ensures menuCommand == old(menuCommand) && validateMenuCommand == old(validateMenuCommand)
    {
      var children := CreateMenuItems(menu.items, bindings);
      item := NativeSubmenu(menu.name, children, false);
    }

    /**
     * `set_menus`: one top-level item per menu, the menu named "Window"
     * becomes the windows menu, and the menus are kept. The actions
     * registered earlier stay, so earlier tags still resolve.
     */
    method SetMenus(newMenus: seq<Menu>, bindings: Bindings)
      modifies this
      ensures menuActions == old(menuActions) + MenusActions(newMenus, |newMenus|)
      ensures mainMenu == MenuBar(newMenus, |newMenus|, |old(menuActions)|, bindings)
      ensures windowsMenu == WindowMenuIndex(newMenus, |newMenus|)
      ensures windowsMenu.Some? <==> exists i :: 0 <= i < |newMenus| && newMenus[i].name == "Window"
      ensures windowsMenu.Some? ==>
        && windowsMenu.value < |newMenus| && newMenus[windowsMenu.value].name == "Window"
        && forall j :: windowsMenu.value < j < |newMenus| ==> newMenus[j].name != "Window"
      ensures menus == Some(newMenus)
      ensures dockMenu == old(dockMenu)
      ensures menuCommand == old(menuCommand) && validateMenuCommand == old(validateMenuCommand)
    {
      var bar, window := CreateMenuBar(newMenus, bindings);
      WindowMenuIsLast(newMenus, |newMenus|);
      mainMenu := bar;
      windowsMenu := window;
      menus := Some(newMenus);
    }

    /** `create_menu_bar_typed`: the top-level items in order, noting the last menu named "Window". */
    method CreateMenuBar(newMenus: seq<Menu>, bindings: Bindings) returns (bar: seq<NativeItem>, window: Option<nat>)
      modifies this`menuActions
      ensures menuActions == old(menuActions) + MenusActions(newMenus, |newMenus|)
      ensures bar == MenuBar(newMenus, |newMenus|, |old(menuActions)|, bindings)
      ensures window == WindowMenuIndex(newMenus, |newMenus|)
    {
      bar := [];
      window := None;
      var i := 0;
      while i < |newMenus|
        invariant 0 <= i <= |newMenus|
        invariant menuActions == old(menuActions) + MenusActions(newMenus, i)
        invariant bar == MenuBar(newMenus, i, |old(menuActions)|, bindings)
        invariant window == WindowMenuIndex(newMenus, i)
      {
        bar := AppendTopLevelItem(newMenus, i, bar, old(menuActions), bindings);
        if newMenus[i].name == "Window" {
          window := Some(i);
        }
        i := i + 1;
      }
    }

    /** One step of that loop: the next menu's top-level item joins the bar. */
    method AppendTopLevelItem(newMenus: seq<Menu>, i: nat, bar: seq<NativeItem>, ghost before: seq<ActionId>, bindings: Bindings)
      returns (bar': seq<NativeItem>)
      requires i < |newMenus|
      requires menuActions == before + MenusActions(newMenus, i)
      requires bar == MenuBar(newMenus, i, |before|, bindings)
      modifies this`menuActions
      ensures menuActions == before + MenusActions(newMenus, i + 1)
      ensures bar' == MenuBar(newMenus, i + 1, |before|, bindings)
    {
      ghost var done := MenusActions(newMenus, i);
      ghost var added := ListActions(newMenus[i].items);
      assert (before + done) + added == before + (done + added);
      var item := CreateTopLevelItem(newMenus[i], bindings);
      assert item == NativeSubmenu(newMenus[i].name, NativeListOf(newMenus[i].items, |before| + |done|, bindings), false);
      bar' := bar + [item];
    }

    /** `set_dock_menu`: the dock menu's items register their actions like any menu's. */
    method SetDockMenu(items: seq<MenuItem>, bindings: Bindings)
      modifies this
      ensures menuActions == old(menuActions) + ListActions(items)
      ensures dockMenu == Some(NativeListOf(items, |old(menuActions)|, bindings))
      ensures unchanged(this`mainMenu, this`windowsMenu, this`menus)
      ensures menuCommand == old(menuCommand) && validateMenuCommand == old(validateMenuCommand)
    {
      var natives := CreateMenuItems(items, bindings);
      dockMenu := Some(natives);
    }

    /**
     * `handle_menu_item`: with a menu callback registered, the action the
     * item's tag selects is dispatched; the callback is put back.
     */
    method HandleMenuItem(tag: NSInteger) returns (dispatched: Option<ActionId>)
      requires |menuActions| < 0x8000_0000_0000_0000
      ensures dispatched.Some? <==> menuCommand && 0 <= tag < |menuActions|
      ensures dispatched.Some? ==> dispatched.value == menuActions[tag]
    {
      dispatched := None;
      if menuCommand {
        dispatched := MenuActionFor(menuActions, tag);
      }
    }

    /**
     * `validate_menu_item`: an item is enabled only when the validation
     * callback is registered, its tag selects an action and the callback
     * accepts that action.
     */
    method ValidateMenuItem(tag: NSInteger, validate: ActionId -> bool) returns (enabled: bool)
      requires |menuActions| < 0x8000_0000_0000_0000
      ensures enabled <==> validateMenuCommand && 0 <= tag < |menuActions| && validate(menuActions[tag])
    {
      enabled := false;
      if validateMenuCommand {
        var action := MenuActionFor(menuActions, tag);
        if action.Some? {
          enabled := validate(action.value);
        }
      }
    }
  }

  // ---------------------------------------------------------------------
  // Save panel filename repair
  // ---------------------------------------------------------------------

  const Dot: byte := 0x2E

  /** `<[u8]>::split` on '.': the parts between dots, empty ones included. */
  function Split(s: seq<byte>): (chunks: seq<seq<byte>>)
    ensures |chunks| >= 1
    ensures forall c :: c in chunks ==> Dot !in c
    decreases |s|
  {
    if |s| == 0 then [[]]
    else
      var rest := Split(s[1..]);
      if s[0] == Dot then [[]] + rest
      else [[s[0]] + rest[0]] + rest[1..]
  }

  /** The parts put back together with a dot between each two. */
  function Join(chunks: seq<seq<byte>>): seq<byte>
    requires |chunks| >= 1
  {
    if |chunks| == 1 then chunks[0] else chunks[0] + [Dot] + Join(chunks[1..])
  }

  lemma {:induction false} JoinSplit(s: seq<byte>)
    ensures Join(Split(s)) == s
    decreases |s|
  {
    if |s| > 0 {
      JoinSplit(s[1..]);
      var rest := Split(s[1..]);
      if s[0] != Dot {
        var chunks := Split(s);
        if |rest| == 1 {
          assert chunks == [[s[0]] + rest[0]];
        } else {
          assert chunks[1..] == rest[1..];
          assert Join(rest) == rest[0] + [Dot] + Join(rest[1..]);
        }
      } else {
        assert Split(s)[1..] == rest;
      }
    }
  }

  /** A dot-free part followed by more parts splits off as the first part. */
  lemma {:induction false} SplitJoin(chunks: seq<seq<byte>>)
    requires |chunks| >= 1
    requires forall c :: c in chunks ==> Dot !in c
    ensures Split(Join(chunks)) == chunks
    decreases |Join(chunks)|
  {
    var c := chunks[0];
    if |chunks| == 1 {
      SplitNoDot(c);
    } else {
      SplitJoin(chunks[1..]);
      SplitPrefix(c, Join(chunks[1..]));
      assert [c] + chunks[1..] == chunks;
    }
  }

  lemma {:induction false} SplitNoDot(c: seq<byte>)
    requires Dot !in c
    ensures Split(c) == [c]
    decreases |c|
  {
    if |c| > 0 {
      SplitNoDot(c[1..]);
      assert [c[0]] + c[1..] == c;
    }
  }

  lemma {:induction false} SplitPrefix(c: seq<byte>, t: seq<byte>)
    requires Dot !in c
    ensures Split(c + [Dot] + t) == [c] + Split(t)
    decreases |c|
  {
    var s := c + [Dot] + t;
    if |c| == 0 {
      assert s[1..] == t;
    } else {
      assert s[1..] == c[1..] + [Dot] + t;
      SplitPrefix(c[1..], t);
      assert [c[0]] + c[1..] == c;
    }
  }

  lemma JoinThree(chunks: seq<seq<byte>>)
    requires |chunks| == 3
    ensures Join(chunks[..2]) == chunks[0] + [Dot] + chunks[1]
    ensures Join(chunks) == Join(chunks[..2]) + [Dot] + chunks[2]
  {
    assert chunks[1..][1..] == [chunks[2]];
    assert chunks[..2][1..] == [chunks[1]];
    var c0, c1, c2 := chunks[0], chunks[1], chunks[2];
    assert Join(chunks[1..]) == c1 + [Dot] + c2;
    assert c0 + [Dot] + (c1 + [Dot] + c2) == (c0 + [Dot] + c1) + [Dot] + c2;
  }

  datatype SemanticVersion = SemanticVersion(major: nat, minor: nat, patch: nat)

  predicate AtLeast(v: SemanticVersion, w: SemanticVersion)
  {
    || v.major > w.major
    || (v.major == w.major && v.minor > w.minor)
    || (v.major == w.major && v.minor == w.minor && v.patch >= w.patch)
  }

  /** The name has three parts and the middle part begins with the last. */
  predicate DoubledExtension(name: seq<byte>)
  {
    var chunks := Split(name);
    |chunks| == 3 && chunks[2] <= chunks[1]
  }

  /**
   * The save panel's workaround for macOS 15, which may append part of the
   * extension again ("a.sql" saved as "a.sql.s"): such a name loses its
   * last part.
   */
  function SequoiaFilename(name: seq<byte>, os: SemanticVersion): (r: seq<byte>)
    ensures r != name <==> DoubledExtension(name) && AtLeast(os, SemanticVersion(15, 0, 0))
    ensures r != name ==> name == r + [Dot] + Split(name)[2] && Split(r) == Split(name)[..2]
  {
    var chunks := Split(name);
    if |chunks| == 3 && chunks[2] <= chunks[1] && AtLeast(os, SemanticVersion(15, 0, 0)) then
      JoinSplit(name);
      JoinThree(chunks);
      var r := name[..|chunks[0]| + 1 + |chunks[1]|];
      assert r == Join(chunks[..2]);
      SplitJoin(chunks[..2]);
      r
    else name
  }

  /** The repair never applies twice. */
  lemma SequoiaFilenameIdempotent(name: seq<byte>, os: SemanticVersion)
    ensures SequoiaFilename(SequoiaFilename(name, os), os) == SequoiaFilename(name, os)
  {
  }
}
