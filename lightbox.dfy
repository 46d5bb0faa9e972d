/**
 * `initGalleryLightbox` (script.js:90-184): the full-screen viewer for the
 * gallery. The images and their captions are collected once; a cursor
 * `currentIndex` moves over them with wrap-around while the viewer is open.
 */
module Lightbox {
  import opened Wrappers
  import opened Arith

  /** One `.gallery-item` as the initializer reads it: its `img`'s (resolved)
      `src` and `alt`, and the text of its `.gallery-overlay span`, if it has one. */
  datatype GalleryItem = GalleryItem(src: string, alt: string, overlayCaption: Option<string>)

  /** One entry of `images`. */
  datatype Image = Image(src: string, caption: string)

  /** The caption of an item (script.js:120): the overlay's text when the overlay
      exists (even when that text is empty), else the image's `alt`; an absent
      `alt` reads as the empty string, so `|| ''` adds nothing. */
  function CaptionOf(item: GalleryItem): string {
    match item.overlayCaption
    case Some(text) => text
    case None => item.alt
  }

  /** The `forEach`/`push` loop of script.js:113-128: one image per item, in page order. */
  method CollectImages(items: seq<GalleryItem>) returns (images: seq<Image>)
    ensures |images| == |items|
    ensures forall k :: 0 <= k < |items| ==> images[k].src == items[k].src
    ensures forall k :: 0 <= k < |items| ==>
              images[k].caption == if items[k].overlayCaption.Some? then items[k].overlayCaption.value
                                   else items[k].alt
  {
    images := [];
    var index := 0;
    while index < |items|
      invariant 0 <= index <= |items| && |images| == index
      invariant forall k :: 0 <= k < index ==> images[k] == Image(items[k].src, CaptionOf(items[k]))
    {
      var item := items[index];
      images := images + [Image(item.src, CaptionOf(item))];
      index := index + 1;
    }
  }

  // ---------------------------------------------------------------------------
  // The cursor arithmetic

  /** `(currentIndex + 1) % images.length` (script.js:147). */
  function NextIndex(i: nat, n: nat): (j: nat)
    requires i < n
    ensures j < n
    ensures j == if i == n - 1 then 0 else i + 1
  {
    (i + 1) % n
  }

  /** `(currentIndex - 1 + images.length) % images.length` (script.js:152); the
      added length keeps the left operand non-negative, so JavaScript's `%` and
      Dafny's agree here. */
  function PrevIndex(i: nat, n: nat): (j: nat)
    requires i < n
    ensures j < n
    ensures j == if i == 0 then n - 1 else i - 1
  {
    (i - 1 + n) % n
  }

  /** Previous undoes next, and next undoes previous. */
  lemma PrevNextInverse(i: nat, n: nat)
    requires i < n
    ensures PrevIndex(NextIndex(i, n), n) == i
    ensures NextIndex(PrevIndex(i, n), n) == i
  {
  }

  /** The index after `k` consecutive nexts from `i`. */
  function Advance(i: nat, k: nat, n: nat): (j: nat)
    requires i < n
    ensures j < n
  {
    if k == 0 then i else NextIndex(Advance(i, k - 1, n), n)
  }

  /** `k` nexts move the cursor `k` places round the circle. */
  lemma {:induction false} AdvanceIsModular(i: nat, k: nat, n: nat)
    requires i < n
    ensures Advance(i, k, n) == (i + k) % n
  {
    if k == 0 {
      DivModUnique(i, n, 0, i);
    } else {
      AdvanceIsModular(i, k - 1, n);
      ModAdd(i + k - 1, 1, n);
    }
  }

  /** `n` nexts bring the cursor back where it started. */
  lemma FullCycle(i: nat, n: nat)
    requires i < n
    ensures Advance(i, n, n) == i
  {
    AdvanceIsModular(i, n, n);
    DivModUnique(i + n, n, 1, i);
  }

  // ---------------------------------------------------------------------------
  // The viewer

  /** What a click inside the `#lightbox` overlay lands on. */
  datatype OverlayTarget =
    | Background   // the overlay element itself
    | CloseButton  // `.lightbox-close`
    | NextButton   // `.lightbox-next`
    | PrevButton   // `.lightbox-prev`
    | Picture      // the image, the caption or anything else inside the overlay

  class GalleryLightbox {
    const images: seq<Image>
    var currentIndex: nat
    var active: bool          // `#lightbox` has the class "active"
    var shownSrc: string      // `src` of `#lightbox-img`
    var shownCaption: string  // text of `#lightbox-caption`
    var bodyOverflow: string  // `document.body.style.overflow`

    /** The image at `i` is the one on display. */
    predicate Shows(i: nat)
      reads this
      requires i < |images|
    {
      shownSrc == images[i].src && shownCaption == images[i].caption
    }

    /** The cursor stays on an image, background scrolling is locked exactly
        while the viewer is open, and an open viewer shows the current image. */
    ghost predicate Valid()
      reads this
    {
      |images| > 0 && currentIndex < |images|
      && bodyOverflow == (if active then "hidden" else "")
      && (active ==> Shows(currentIndex))
    }

    /** The state `initGalleryLightbox` leaves behind when it does not bail out;
        `imgSrc` and `captionText` are what the overlay's markup holds before
        anything is shown. */
    constructor (items: seq<GalleryItem>, imgSrc: string, captionText: string)
      requires |items| > 0
      ensures Valid() && !active && currentIndex == 0
      ensures |images| == |items|
      ensures forall k :: 0 <= k < |items| ==> images[k] == Image(items[k].src, CaptionOf(items[k]))
      ensures shownSrc == imgSrc && shownCaption == captionText
    {
      var collected := CollectImages(items);
      images := collected;
      currentIndex := 0;
      active := false;
      shownSrc, shownCaption := imgSrc, captionText;
      bodyOverflow := "";
    }

    /** `updateLightboxImage` (script.js:141-144). */
    method UpdateLightboxImage()
      requires currentIndex < |images|
      modifies this
      ensures currentIndex == old(currentIndex) && active == old(active) && bodyOverflow == old(bodyOverflow)
      ensures Shows(currentIndex)
    {
      shownSrc := images[currentIndex].src;
      shownCaption := images[currentIndex].caption;
    }

    /** `openLightbox` (script.js:130-134). It is also called right after the
        cursor has moved, so it asks only that the cursor be on an image. */
    method OpenLightbox()
      requires 0 < |images| && currentIndex < |images|
      modifies this
      ensures Valid() && active && Shows(currentIndex) && bodyOverflow == "hidden"
      ensures currentIndex == old(currentIndex)
    {
      active := true;
      UpdateLightboxImage();
      bodyOverflow := "hidden";
    }

    /** `closeLightbox` (script.js:136-139): the cursor and the picture stay. */
    method CloseLightbox()
      requires Valid()
      modifies this
      ensures Valid() && !active && bodyOverflow == ""
      ensures currentIndex == old(currentIndex)
      ensures shownSrc == old(shownSrc) && shownCaption == old(shownCaption)
    {
      active := false;
      bodyOverflow := "";
    }

    /** `nextImage` (script.js:146-149). */
    method NextImage()
      requires Valid()
      modifies this
      ensures Valid() && currentIndex == NextIndex(old(currentIndex), |images|) && Shows(currentIndex)
      ensures active == old(active) && bodyOverflow == old(bodyOverflow)
    {
      currentIndex := (currentIndex + 1) % |images|;
      UpdateLightboxImage();
    }

    /** `prevImage` (script.js:151-154). */
    method PrevImage()
      requires Valid()
      modifies this
      ensures Valid() && currentIndex == PrevIndex(old(currentIndex), |images|) && Shows(currentIndex)
      ensures active == old(active) && bodyOverflow == old(bodyOverflow)
    {
      currentIndex := (currentIndex - 1 + |images|) % |images|;
      UpdateLightboxImage();
    }

    /** A gallery item's click listener (script.js:124-127). */
    method OnItemClick(index: nat)
      requires Valid() && index < |images|
      modifies this
      ensures Valid() && active && currentIndex == index && Shows(index)
    {
      currentIndex := index;
      OpenLightbox();
    }

    /** The overlay's own click listener (script.js:162-166): only a click on the
        overlay itself, not on anything inside it, closes the viewer. */
    method OnOverlayClick(targetIsOverlay: bool)
      requires Valid()
      modifies this
      ensures Valid() && currentIndex == old(currentIndex)
      ensures active == (old(active) && !targetIsOverlay)
      ensures shownSrc == old(shownSrc) && shownCaption == old(shownCaption)
      ensures !targetIsOverlay ==> bodyOverflow == old(bodyOverflow)
    {
      if targetIsOverlay {
        CloseLightbox();
      }
    }

    /** One click inside the overlay: the button's listener, if any, then the
        overlay's listener as the event bubbles up to it. */
    method Click(target: OverlayTarget)
      requires Valid()
      modifies this
      ensures Valid()
      ensures target == Background || target == CloseButton ==> !active && currentIndex == old(currentIndex)
      ensures target == NextButton ==>
                active == old(active) && currentIndex == NextIndex(old(currentIndex), |images|)
      ensures target == PrevButton ==>
                active == old(active) && currentIndex == PrevIndex(old(currentIndex), |images|)
      ensures target == Picture ==>
                active == old(active) && currentIndex == old(currentIndex)
                && shownSrc == old(shownSrc) && shownCaption == old(shownCaption)
    {
      match target
      case Background =>
        OnOverlayClick(true);
      case CloseButton =>
        CloseLightbox();
        OnOverlayClick(false);
      case NextButton =>
        NextImage();
        OnOverlayClick(false);
      case PrevButton =>
        PrevImage();
        OnOverlayClick(false);
      case Picture =>
        OnOverlayClick(false);
    }

    /** The document's keydown listener (script.js:169-183). */
    method OnKeyDown(key: string)
      requires Valid()
      modifies this
      ensures Valid()
      ensures !old(active) ==>
                active == old(active) && currentIndex == old(currentIndex) && bodyOverflow == old(bodyOverflow)
                && shownSrc == old(shownSrc) && shownCaption == old(shownCaption)
      ensures old(active) && key == "Escape" ==> !active && currentIndex == old(currentIndex)
      ensures old(active) && key == "ArrowRight" ==>
                active && currentIndex == NextIndex(old(currentIndex), |images|)
      ensures old(active) && key == "ArrowLeft" ==>
                active && currentIndex == PrevIndex(old(currentIndex), |images|)
      ensures old(active) && key !in {"Escape", "ArrowRight", "ArrowLeft"} ==>
                active && currentIndex == old(currentIndex) && bodyOverflow == old(bodyOverflow)
                && shownSrc == old(shownSrc) && shownCaption == old(shownCaption)
    {
      if !active {
        return;
      }
      if key == "Escape" {
        CloseLightbox();
      } else if key == "ArrowRight" {
        NextImage();
      } else if key == "ArrowLeft" {
        PrevImage();
      }
    }
  }

  /** `initGalleryLightbox` as a whole: with no gallery items, or with any piece
      of the overlay's markup missing, it sets nothing up and the rest of the
      page carries on; otherwise the viewer starts closed on the first image. */
  method InitGalleryLightbox(items: seq<GalleryItem>, markupPresent: bool, imgSrc: string, captionText: string)
    returns (viewer: GalleryLightbox?)
    ensures viewer == null <==> |items| == 0 || !markupPresent
    ensures viewer != null ==>
              fresh(viewer) && viewer.Valid() && !viewer.active && viewer.currentIndex == 0
              && |viewer.images| == |items|
              && forall k :: 0 <= k < |items| ==> viewer.images[k] == Image(items[k].src, CaptionOf(items[k]))
  {
    if |items| == 0 {
      return null;
    }
    if !markupPresent {
      return null;
    }
    viewer := new GalleryLightbox(items, imgSrc, captionText);
  }
}
