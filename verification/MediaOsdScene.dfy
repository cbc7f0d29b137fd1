/** The retained layout of the media display and its update in place. */
module MediaOsdScene {
  import opened Basics
  import opened MediaOsd

  const U32_LIMIT := 0x1_0000_0000
  const I32_MAX := 0x7fff_ffff
  type U32 = n: nat | n < U32_LIMIT

  const INSET: U32 := 12
  const GAP: U32 := 6
  const ACTION_SIZE: U32 := 32
  const METADATA_GAP: U32 := 5
  const PROGRESS_GAP: U32 := 4
  const PROGRESS_HEIGHT: U32 := 3

  datatype Size = Size(width: U32, height: U32)
  datatype Rect = Rect(x: int, y: int, width: U32, height: U32)
  datatype Hit = Previous | PlayPause | Next
  datatype Card = Card(hit: Hit, bounds: Rect, enabled: bool)
  datatype Scene = Scene(extent: Size, actions: seq<Card>, title: Rect, detail: Rect, progress: Rect, content: Content)

  function Add(a: U32, b: U32): U32 {
    if a + b < U32_LIMIT then a + b else U32_LIMIT - 1
  }

  function Sub(a: U32, b: U32): U32 {
    if a < b then 0 else a - b
  }

  /** Saturating multiplication by the small factors of the layout. */
  function Mul(a: U32, k: U32): U32 {
    if k == 0 then 0 else Add(Mul(a, k - 1), a)
  }

  function Min(a: U32, b: U32): U32 {
    if a < b then a else b
  }

  function Signed(a: U32): int {
    if a <= I32_MAX then a else I32_MAX
  }

  function Supports(c: Content, hit: Hit): bool {
    match hit
    case Previous => c.previous
    case PlayPause => c.playPause
    case Next => c.next
  }

  function ActionCard(content: Content, hit: Hit, index: U32, size: U32, top: U32): Card {
    Card(hit, Rect(Signed(Add(INSET, Mul(Add(size, GAP), index))), Signed(top), size, size), Supports(content, hit))
  }

  function Build(extent: Size, content: Content): Scene {
    var innerWidth, innerHeight := Sub(extent.width, Mul(INSET, 2)), Sub(extent.height, Mul(INSET, 2));
    var available := Min(innerWidth, Add(Mul(ACTION_SIZE, 3), Mul(GAP, 2)));
    var size := Min(Min(innerHeight, ACTION_SIZE), Sub(available, Mul(GAP, 2)) / 3);
    var controls := Add(Mul(size, 3), Mul(GAP, 2));
    var top := Add(INSET, Sub(innerHeight, size) / 2);
    var left := Add(Add(INSET, controls), GAP);
    var width := Sub(Sub(extent.width, left), INSET);
    var line := Sub(Sub(Sub(innerHeight, METADATA_GAP), PROGRESS_GAP), PROGRESS_HEIGHT) / 2;
    Scene(
      extent,
      [ActionCard(content, Previous, 0, size, top), ActionCard(content, PlayPause, 1, size, top), ActionCard(content, Next, 2, size, top)],
      Rect(Signed(left), Signed(INSET), width, line),
      Rect(Signed(left), Signed(Add(Add(INSET, line), METADATA_GAP)), width, line),
      Rect(Signed(left), Signed(Add(Add(Add(INSET, Mul(line, 2)), METADATA_GAP), PROGRESS_GAP)), width, PROGRESS_HEIGHT),
      content)
  }

  // ---------------------------------------------------------------- What the layout looks like

  lemma {:induction false} SmallProducts(a: U32)
    requires a <= 0x3fff_ffff
    ensures Mul(a, 0) == 0 && Mul(a, 1) == a && Mul(a, 2) == 2 * a
    ensures a <= 0x1000 ==> Mul(a, 3) == 3 * a
  {
    assert Mul(a, 1) == Add(Mul(a, 0), a);
    assert Mul(a, 2) == Add(Mul(a, 1), a);
    assert Mul(a, 3) == Add(Mul(a, 2), a);
  }

  /** The common side of the cards: 32 pixels, less where the surface is low or narrow. */
  function Side(extent: Size): (side: U32)
    ensures side <= 32
    ensures side == 32 <==> extent.width >= 132 && extent.height >= 56
  {
    var across := if extent.width < 36 then 0 else (extent.width - 36) / 3;
    var down := if extent.height < 24 then 0 else extent.height - 24;
    if across < 32 && across <= down then across else if down < 32 then down else 32
  }

  lemma {:induction false} SizeIsSide(extent: Size)
    ensures Side(extent) ==
      Min(Min(Sub(extent.height, 24), 32), Sub(Min(Sub(extent.width, 24), 108), 12) / 3)
  {
  }

  /** Where the cards begin from the top: centred between twelve pixels above and below. */
  function Top(extent: Size): nat {
    12 + (if extent.height < 24 then 0 else (extent.height - 24 - Side(extent)) / 2)
  }

  lemma {:induction false} CardsAreBuilt(extent: Size, content: Content)
    ensures
      var side, top := Side(extent), Top(extent);
      Build(extent, content).actions ==
        [ActionCard(content, Previous, 0, side, top), ActionCard(content, PlayPause, 1, side, top), ActionCard(content, Next, 2, side, top)]
  {
    SmallProducts(INSET);
    SmallProducts(GAP);
    SmallProducts(ACTION_SIZE);
    SizeIsSide(extent);
  }

  /** The three cards in order, each enabled exactly as the player supports its action: equal squares, six
      pixels apart, from twelve pixels in. */
  lemma {:induction false} CardsAreLaidOut(extent: Size, content: Content)
    requires extent.height <= I32_MAX
    ensures
      var side, top := Side(extent), Top(extent);
      Build(extent, content).actions ==
        [Card(Previous, Rect(12, top, side, side), content.previous),
         Card(PlayPause, Rect(12 + side + 6, top, side, side), content.playPause),
         Card(Next, Rect(12 + 2 * (side + 6), top, side, side), content.next)]
  {
    CardsAreBuilt(extent, content);
    SmallProducts(Side(extent) + 6);
  }

  /** The cards keep twelve pixels from the right exactly if the surface is 36 pixels wide, and from the
      bottom exactly if it is 24 pixels high. */
  lemma {:induction false} CardsFitExactly(extent: Size)
    ensures 12 + 2 * (Side(extent) + 6) + Side(extent) + 12 <= extent.width <==> 36 <= extent.width
    ensures Top(extent) + Side(extent) + 12 <= extent.height <==> 24 <= extent.height
  {
  }

  /** Title, detail and progress stand to the right of the cards, one below the other without touching,
      and end twelve pixels from the right if they are there at all. The progress keeps twelve pixels from
      the bottom exactly if the surface is 36 pixels high. */
  lemma {:induction false} MetadataIsLaidOut(extent: Size, content: Content)
    requires extent.width <= I32_MAX && extent.height <= I32_MAX
    ensures
      var scene := Build(extent, content);
      var cards, title, detail, progress := scene.actions, scene.title, scene.detail, scene.progress;
      && |cards| == 3 && title.x == detail.x == progress.x == cards[2].bounds.x + cards[2].bounds.width + 6
      && title.width == detail.width == progress.width && (title.width > 0 ==> title.x + title.width + 12 == extent.width)
      && title.y == 12 && detail.y == title.y + title.height + 5 && progress.y == detail.y + detail.height + 4
      && title.height == detail.height && progress.height == 3
      && (progress.y + progress.height + 12 <= extent.height <==> 36 <= extent.height)
      && (36 <= extent.height ==> extent.height - (progress.y + progress.height + 12) <= 1)
  {
    SmallProducts(INSET);
    SmallProducts(GAP);
    SmallProducts(ACTION_SIZE);
    SizeIsSide(extent);
    SmallProducts(Side(extent));
    SmallProducts(Side(extent) + 6);
    SmallProducts(Sub(Sub(Sub(Sub(extent.height, 24), METADATA_GAP), PROGRESS_GAP), PROGRESS_HEIGHT) / 2);
  }

  // ---------------------------------------------------------------- The retained scene

  /** Every retained scene is what a rebuild from its own extent and content gives. */
  predicate IsBuilt(scene: Scene) {
    scene == Build(scene.extent, scene.content)
  }

  /** The two contents differ at most in the position. */
  predicate SameButPosition(a: Content, b: Content) {
    a.(position := None) == b.(position := None)
  }

  /** The drawn part of the track never exceeds it and is whole exactly at the end of the duration. */
  function ProgressValue(track: Rect, c: Content): (r: Option<Rect>)
    ensures r.Some? ==> 0 < r.value.width <= track.width && r.value.(width := track.width) == track
    ensures c.duration.Some? && c.duration.value > 0 && track.width > 0 ==>
      (r == Some(track) <==> c.position.Some? && c.position.value >= c.duration.value)
  {
    if c.duration.None? || c.duration.value == 0 then None
    else
      var position := if c.position.None? then 0 else if c.position.value < c.duration.value then c.position.value else c.duration.value;
      ScaledWidth(track.width, position, c.duration.value);
      var width: U32 := Min(track.width * position / c.duration.value, track.width);
      if width > 0 then Some(Rect(track.x, track.y, width, track.height)) else None
  }

  lemma {:induction false} ProductGrows(a: nat, b: nat, c: nat)
    ensures a <= b ==> a * c <= b * c
    ensures a < b && c > 0 ==> a * c < b * c
  {
    if c > 0 {
      ProductGrows(a, b, c - 1);
      assert a * c == a * (c - 1) + a && b * c == b * (c - 1) + b;
    }
  }

  lemma QuotientBelow(n: nat, d: nat, m: nat)
    requires d > 0
    ensures n / d < m <==> n < m * d
  {
    var q := n / d;
    assert n == q * d + n % d;
    ProductGrows(q + 1, m, d);
    ProductGrows(m, q, d);
    assert (q + 1) * d == q * d + d;
  }

  lemma ScaledWidth(width: nat, position: nat, duration: nat)
    requires position <= duration && duration > 0
    ensures 0 <= width * position / duration <= width
    ensures width > 0 ==> (width * position / duration == width <==> position == duration)
  {
    ProductGrows(position, duration, width);
    assert position * width == width * position && duration * width == width * duration;
    assert (width + 1) * duration == width * duration + duration;
    QuotientBelow(width * position, duration, width + 1);
    QuotientBelow(width * position, duration, width);
  }

  /** The drawn part is the played part of the track, rounded down to whole pixels. */
  lemma {:induction false} ProgressIsProportional(track: Rect, c: Content)
    requires c.position.Some? && c.duration.Some? && 0 < c.duration.value && c.position.value <= c.duration.value
    ensures
      var drawn := if ProgressValue(track, c).None? then 0 else ProgressValue(track, c).value.width;
      drawn * c.duration.value <= track.width * c.position.value < (drawn + 1) * c.duration.value
  {
    var scaled := track.width * c.position.value;
    ScaledWidth(track.width, c.position.value, c.duration.value);
    QuotientBelow(scaled, c.duration.value, scaled / c.duration.value);
    QuotientBelow(scaled, c.duration.value, scaled / c.duration.value + 1);
  }

  /** Playing on never shrinks the drawn progress. */
  lemma ProgressGrows(track: Rect, c: Content, ms: nat)
    requires c.position.Some? && c.duration.Some? && c.position.value <= c.duration.value
    ensures var before, after := ProgressValue(track, c), ProgressValue(track, Extrapolated(c, ms));
      before.Some? ==> after.Some? && before.value.width <= after.value.width
  {
    if Moves(c) {
      var w, d := track.width, c.duration.value;
      var p, q := c.position.value, Extrapolated(c, ms).position.value;
      ScaledWidth(w, p, d);
      ScaledWidth(w, q, d);
      ProductGrows(p, q, w);
      QuotientBelow(w * q, d, w * q / d + 1);
      QuotientBelow(w * p, d, w * q / d + 1);
    }
  }

  class RetainedScene {
    var scene: Scene

    constructor (extent: Size, content: Content)
      ensures IsBuilt(scene) && scene == Build(extent, content)
    {
      scene := Build(extent, content);
    }

    /** An accepted update is a rebuild at the retained extent; a refused one changes nothing. */
    method UpdateProgress(content: Content) returns (accepted: bool)
      requires IsBuilt(scene)
      modifies this
      ensures IsBuilt(scene)
      ensures accepted <==> SameButPosition(old(scene).content, content)
      ensures scene == if accepted then Build(old(scene).extent, content) else old(scene)
    {
      if scene.content.title != content.title || scene.content.artists != content.artists || scene.content.album != content.album
         || scene.content.duration != content.duration || scene.content.playback != content.playback
         || scene.content.previous != content.previous || scene.content.playPause != content.playPause || scene.content.next != content.next {
        return false;
      }
      scene := scene.(content := scene.content.(position := content.position));
      return true;
    }
  }

  /** Refreshing the scene of a surface: drop it when nothing is shown, else update or rebuild it. */
  function Refreshed(retained: Option<Scene>, extent: Size, shown: Option<Content>): Option<Scene> {
    if shown.None? then None
    else if retained.Some? && SameButPosition(retained.value.content, shown.value) then Some(retained.value.(content := shown.value))
    else Some(Build(extent, shown.value))
  }

  /** The refreshed scene is the layout for the surface's present extent exactly when the retained scene
      had that extent or could not be updated in place. */
  lemma RefreshedIsRebuiltUnlessResized(retained: Option<Scene>, extent: Size, content: Content)
    requires retained.Some? ==> IsBuilt(retained.value)
    ensures
      var refreshed := Refreshed(retained, extent, Some(content)).value;
      && IsBuilt(refreshed) && refreshed.content == content
      && (refreshed == Build(extent, content) <==>
           retained.None? || retained.value.extent == extent || !SameButPosition(retained.value.content, content))
  {
  }

  /** A resize with unchanged content keeps the old layout: cards placed for 400 pixels stay 32 pixels
      wide when the surface has only 120 pixels, for which they should be 28. */
  lemma StaleLayoutAfterResize(content: Content)
    ensures
      var before := Build(Size(400, 100), content);
      var refreshed := Refreshed(Some(before), Size(120, 100), Some(content));
      && refreshed == Some(before) && before.actions[0].bounds.width == 32
      && Build(Size(120, 100), content).actions[0].bounds.width == 28
  {
    assert Mul(INSET, 2) == 24 && Mul(GAP, 2) == 12 && Mul(ACTION_SIZE, 3) == 96 by {
      assert Mul(INSET, 1) == INSET && Mul(GAP, 1) == GAP && Mul(ACTION_SIZE, 1) == ACTION_SIZE && Mul(ACTION_SIZE, 2) == 64;
    }
  }

  method RefreshScene(retained: RetainedScene?, extent: Size, shown: Option<Content>) returns (r: RetainedScene?)
    requires retained != null ==> IsBuilt(retained.scene)
    modifies retained
    ensures r == null <==> shown.None?
    ensures (if r == null then None else Some(r.scene)) ==
            Refreshed(if retained == null then None else Some(old(retained.scene)), extent, shown)
  {
    if shown.None? {
      return null;
    }
    if retained != null {
      var accepted := retained.UpdateProgress(shown.value);
      if accepted {
        return retained;
      }
    }
    r := new RetainedScene(extent, shown.value);
  }
}
