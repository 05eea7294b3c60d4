/**
 * The image records the application passes around.
 *
 * An `Item` is what src/App.jsx keeps in its image list after an upload
 * (`{ file, id, url, name }`; the browser `File` handle itself is opaque and
 * is not represented). A `LoadedImage` is the record src/components/PreviewCanvas.jsx
 * builds once the picture is decoded (`{ ...img, width, height }`): the same
 * item plus its intrinsic pixel size, which is what the layout calculator reads.
 */
module Media {
  datatype Item = Item(id: string, url: string, name: string)

  datatype LoadedImage = LoadedImage(item: Item, width: real, height: real)
  {
    function Id(): string { item.id }
  }

  /** The decoded sizes the layout can divide by: every picture has a positive width and height. */
  predicate WellSized(images: seq<LoadedImage>)
  {
    forall i :: 0 <= i < |images| ==> images[i].width > 0.0 && images[i].height > 0.0
  }

  /** `img.width / img.height`, the image's aspect ratio. */
  function AspectRatio(img: LoadedImage): (r: real)
    requires img.width > 0.0 && img.height > 0.0
    ensures r > 0.0
    ensures r * img.height == img.width
  {
    img.width / img.height
  }
}
