/** One product row of the catalogue table: a link whose target is the
    product's image strings joined, the description cut to a fixed length,
    and a Details button that shows and hides the product modal. */
module Row {
  import opened Types

  /** Descriptions longer than this are shortened. */
  const DescriptionLimit: nat := 100

  const Ellipsis: string := "..."

  /** Whether the row shortens the description (and marks its cells). */
  predicate ConcatDescription(description: string): (shortened: bool)
    ensures shortened <==> description[..Min(DescriptionLimit, |description|)] != description
  {
    |description| > DescriptionLimit
  }

  /** The description shown in the row. */
  function ShownDescription(description: string): (shown: string)
    ensures Min(DescriptionLimit, |description|) <= |shown| <= DescriptionLimit + |Ellipsis|
    ensures shown[..Min(DescriptionLimit, |description|)] == description[..Min(DescriptionLimit, |description|)]
    ensures ConcatDescription(description) ==> shown == description[..DescriptionLimit] + Ellipsis
    ensures !ConcatDescription(description) ==> shown == description
    ensures shown == description ==> |description| <= DescriptionLimit + |Ellipsis|
  {
    if ConcatDescription(description) then description[..DescriptionLimit] + Ellipsis else description
  }

  /** images.join(''): the image strings concatenated in order. */
  function Join(images: seq<string>): (href: string)
    ensures images == [] ==> href == []
    ensures |images| == 1 ==> href == images[0]
    ensures forall i :: 0 <= i < |images| ==> |images[i]| <= |href|
  {
    if images == [] then [] else Join(images[..|images| - 1]) + images[|images| - 1]
  }

  /** Joining distributes over concatenation of the image lists. */
  lemma {:induction false} JoinAppend(a: seq<string>, b: seq<string>)
    ensures Join(a + b) == Join(a) + Join(b)
    decreases |b|
  {
    if b == [] {
      assert a + b == a;
    } else {
      var b' := b[..|b| - 1];
      assert (a + b)[..|a + b| - 1] == a + b';
      JoinAppend(a, b');
    }
  }

  /** Each image string appears whole in the link target, after all the
      images before it and before all the images after it. */
  lemma {:induction false} ImageInHref(images: seq<string>, i: nat)
    requires i < |images|
    ensures Join(images) == Join(images[..i]) + images[i] + Join(images[i + 1..])
  {
    var before, after := images[..i], images[i + 1..];
    var upTo := before + [images[i]];
    assert images == upTo + after;
    JoinAppend(upTo, after);
    assert upTo[..|upTo| - 1] == before;
    assert Join(upTo) == Join(before) + images[i];
  }

  /** The row component: its product and whether its modal is shown. */
  class ProductRow {
    const product: Product
    var showModal: bool

    constructor (product: Product)
      ensures this.product == product
      ensures !showModal
    {
      this.product := product;
      showModal := false;
    }

    /** The Details button and the modal's close button both call this. */
    method HandleModalToggle()
      modifies this
      ensures showModal == !old(showModal)
    {
      showModal := !showModal;
    }

    /** Text of the description cell. */
    function DescriptionCell(): (text: string)
      ensures |text| <= DescriptionLimit + |Ellipsis|
      ensures ConcatDescription(product.description) ==> text == product.description[..DescriptionLimit] + Ellipsis
      ensures !ConcatDescription(product.description) ==> text == product.description
    {
      ShownDescription(product.description)
    }

    /** Target of the image link. */
    function ImageHref(): (href: string)
      ensures product.images == [] ==> href == []
      ensures |product.images| == 1 ==> href == product.images[0]
      ensures forall i :: 0 <= i < |product.images| ==>
        href == Join(product.images[..i]) + product.images[i] + Join(product.images[i + 1..])
    {
      forall i | 0 <= i < |product.images|
        ensures Join(product.images) == Join(product.images[..i]) + product.images[i] + Join(product.images[i + 1..])
      {
        ImageInHref(product.images, i);
      }
      Join(product.images)
    }
  }
}
