/** The alt-text update of the most recently created product
    (server.js lines 118-153): image `i` (counting from 0) gets the alt
    text `<title> - EUPHORE, Foto <i + 1>`. */
module AltText {
  import opened Wrappers
  import opened Strings
  import opened Shop

  const PhotoLabel := " - EUPHORE, Foto "

  /** The alt text of the photo at 1-based `position`. */
  function AltFor(title: string, position: nat): (r: string)
    ensures title + PhotoLabel <= r && IsDigits(r[|title| + |PhotoLabel|..])
  {
    title + PhotoLabel + NatToString(position)
  }

  /** The image list sent back: same length, same ids in the same order,
      each with its new alt text. */
  function RelabelImages(title: string, images: seq<Image>): (r: seq<Image>)
    ensures |r| == |images|
    ensures forall i :: 0 <= i < |r| ==> r[i].id == images[i].id && r[i].alt == AltFor(title, i + 1)
  {
    seq(|images|, i requires 0 <= i < |images| => Image(images[i].id, AltFor(title, i + 1)))
  }

  /** The photo number read back from an alt text is the image's 1-based
      position, so no two images of a product share an alt text. */
  lemma AltTextsNumbered(title: string, images: seq<Image>)
    ensures var r := RelabelImages(title, images);
            forall i :: 0 <= i < |r| ==>
              |title + PhotoLabel| < |r[i].alt| &&
              r[i].alt[..|title + PhotoLabel|] == title + PhotoLabel &&
              IsDigits(r[i].alt[|title + PhotoLabel|..]) &&
              DecimalValue(r[i].alt[|title + PhotoLabel|..]) == i + 1
    ensures var r := RelabelImages(title, images);
            forall i, j :: 0 <= i < j < |r| ==> r[i].alt != r[j].alt
  {
    var r := RelabelImages(title, images);
    var prefix := title + PhotoLabel;
    forall i | 0 <= i < |r|
      ensures |prefix| < |r[i].alt| && r[i].alt[..|prefix|] == prefix
      ensures r[i].alt[|prefix|..] == NatToString(i + 1)
      ensures DecimalValue(r[i].alt[|prefix|..]) == i + 1
    {
      assert r[i].alt == prefix + NatToString(i + 1);
      DecimalRoundTrip(i + 1);
    }
  }

  /** What the route sends and answers: `None` for the product read means
      the read failed or returned no product. */
  datatype AltTextReply = AltTextReply(success: bool, write: Option<seq<Image>>)

  function UpdateAltText(latest: Option<Product>, writeSucceeds: bool): (r: AltTextReply)
    ensures r.success <==> latest.Some? && writeSucceeds
    ensures r.write.Some? <==> latest.Some?
    ensures latest.Some? ==> r.write.value == RelabelImages(latest.value.title, latest.value.images)
  {
    match latest
    case None => AltTextReply(false, None)
    case Some(p) => AltTextReply(writeSucceeds, Some(RelabelImages(p.title, p.images)))
  }

  // This example takes its literals as parameters pinned by
  // `requires`: literals written in the body are unfolded eagerly by the
  // verifier, which makes its proof run out of resources.
  lemma ExampleThreePhotos(title: string, images: seq<Image>)
    requires title == "Bolsa X" && |images| == 3
    ensures var r := RelabelImages(title, images);
            r[0].alt == "Bolsa X - EUPHORE, Foto 1" &&
            r[1].alt == "Bolsa X - EUPHORE, Foto 2" &&
            r[2].alt == "Bolsa X - EUPHORE, Foto 3"
  {
    var prefix := title + PhotoLabel;
    assert prefix == "Bolsa X - EUPHORE, Foto ";
    assert NatToString(1) == "1" && NatToString(2) == "2" && NatToString(3) == "3";
  }

  lemma ExampleNoPhotos(title: string)
    ensures RelabelImages(title, []) == []
  {
  }
}
