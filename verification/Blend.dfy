/** Blending premultiplied colours into a pixel with 8-bit channels. */
module Blend {
  import opened Cursor

  /** A premultiplied colour: no channel exceeds alpha. */
  datatype Colour = Colour(alpha: int, red: int, green: int, blue: int) {
    predicate Premultiplied() {
      0 <= red <= alpha <= 255 && 0 <= green <= alpha && 0 <= blue <= alpha
    }
  }

  predicate IsU8(v: int) {
    0 <= v <= 255
  }

  predicate IsU16(v: int) {
    0 <= v <= 65535
  }

  function BlendChannel(below: int, colour: int, alpha: int): int {
    below * (255 - alpha) / 255 + colour
  }

  /** One blended channel is the exact blend, rounded down. */
  lemma BlendIsFloor(below: int, colour: int, alpha: int)
    requires IsU8(below) && IsU8(colour) && IsU8(alpha)
    ensures BlendChannel(below, colour, alpha) ==
            (below as real * (1.0 - alpha as real / 255.0) + colour as real).Floor
  {
    var product := below * (255 - alpha);
    assert product == product / 255 * 255 + product % 255;
    var exact := below as real * (1.0 - alpha as real / 255.0);
    assert exact * 255.0 == product as real by {
      assert 255.0 * (1.0 - alpha as real / 255.0) == (255 - alpha) as real;
    }
    assert exact == product as real / 255.0;
    assert (product / 255) as real <= exact < (product / 255) as real + 1.0;
  }

  /** For a channel value and an alpha that fit their types: the product fits 16 bits always, and the
      sum fits 8 bits over every background exactly when the colour is premultiplied. */
  lemma ChannelFitsIff(colour: int, alpha: int)
    requires IsU8(colour) && IsU8(alpha)
    ensures forall below :: IsU8(below) ==> IsU16(below * (255 - alpha)) && IsU8(below * (255 - alpha) / 255)
    ensures (forall below :: IsU8(below) ==> IsU8(BlendChannel(below, colour, alpha))) <==> colour <= alpha
  {
    forall below | IsU8(below)
      ensures 0 <= below * (255 - alpha) <= 255 * (255 - alpha)
      ensures 0 <= below * (255 - alpha) / 255 <= 255 - alpha
    {
      ScaleBound(below, 255 - alpha);
    }
    if colour > alpha {
      assert BlendChannel(255, colour, alpha) == 255 - alpha + colour;
      assert !IsU8(BlendChannel(255, colour, alpha));
    }
  }

  lemma ScaleBound(below: int, a: int)
    requires IsU8(below) && IsU8(a)
    ensures 0 <= below * a <= 255 * a <= 65025
    ensures 0 <= below * a / 255 <= a
  {
    var product := below * a;
    assert 0 <= product <= 255 * a;
    assert product == product / 255 * 255 + product % 255;
  }

  /** `blend` on the pixel at position `i` of a frame buffer. */
  method BlendPixel(fb: array<Pixel>, i: nat, colour: Colour)
    requires i < fb.Length && colour.Premultiplied()
    requires IsU8(fb[i].red) && IsU8(fb[i].green) && IsU8(fb[i].blue)
    modifies fb
    ensures IsU8(fb[i].red) && IsU8(fb[i].green) && IsU8(fb[i].blue)
    ensures fb[i] == Pixel(BlendChannel(old(fb[i]).red, colour.red, colour.alpha),
                           BlendChannel(old(fb[i]).green, colour.green, colour.alpha),
                           BlendChannel(old(fb[i]).blue, colour.blue, colour.alpha))
    ensures forall j :: 0 <= j < fb.Length && j != i ==> fb[j] == old(fb[j])
  {
    var a := 255 - colour.alpha;
    ScaleBound(fb[i].red, a);
    ScaleBound(fb[i].green, a);
    ScaleBound(fb[i].blue, a);
    var red := fb[i].red * a / 255 + colour.red;
    var green := fb[i].green * a / 255 + colour.green;
    var blue := fb[i].blue * a / 255 + colour.blue;
    fb[i] := Pixel(red, green, blue);
  }

  // ---- Many layers ----

  /** One channel of a layer: its colour and alpha. */
  datatype Layer = Layer(colour: int, alpha: int)

  predicate Valid(layers: seq<Layer>) {
    forall i :: 0 <= i < |layers| ==> 0 <= layers[i].colour <= layers[i].alpha <= 255
  }

  /** The channel after all layers, with the source's integer arithmetic. */
  function Composite(below: int, layers: seq<Layer>): int {
    if layers == [] then below
    else
      var last := layers[|layers| - 1];
      BlendChannel(Composite(below, layers[..|layers| - 1]), last.colour, last.alpha)
  }

  /** The same with exact fractions. */
  function Exact(below: real, layers: seq<Layer>): real {
    if layers == [] then below
    else
      var last := layers[|layers| - 1];
      Exact(below, layers[..|layers| - 1]) * (255 - last.alpha) as real / 255.0 + last.colour as real
  }

  lemma {:induction false} CompositeFits(below: int, layers: seq<Layer>)
    requires IsU8(below) && Valid(layers)
    ensures IsU8(Composite(below, layers))
  {
    if layers != [] {
      CompositeFits(below, layers[..|layers| - 1]);
      ScaleBound(Composite(below, layers[..|layers| - 1]), 255 - layers[|layers| - 1].alpha);
    }
  }

  /** One layer: the rounding error stays non-negative and grows by less than one. */
  lemma LayerError(value: int, exact: real, layer: Layer, error: real)
    requires IsU8(value) && 0 <= layer.colour <= layer.alpha <= 255
    requires 0.0 <= exact - value as real <= error
    ensures var exact' := exact * (255 - layer.alpha) as real / 255.0 + layer.colour as real;
            0.0 <= exact' - BlendChannel(value, layer.colour, layer.alpha) as real < error + 1.0
  {
    var a := 255 - layer.alpha;
    var f := a as real / 255.0;
    var d := exact - value as real;
    assert exact * a as real / 255.0 == exact * f;
    assert exact * f == value as real * f + d * f;
    assert 0.0 <= d * f <= d;
    var product := value * a;
    assert value as real * f == product as real / 255.0;
    assert product == product / 255 * 255 + product % 255;
    var lost := product as real / 255.0 - (product / 255) as real;
    assert 0.0 <= lost < 1.0;
    var exact' := exact * (255 - layer.alpha) as real / 255.0 + layer.colour as real;
    assert exact' - BlendChannel(value, layer.colour, layer.alpha) as real == d * f + lost;
  }

  /** Over any n layers the integer result is a valid channel, at most the exact composite, and off
      from it by less than n. */
  lemma {:induction false} CompositeError(below: int, layers: seq<Layer>)
    requires IsU8(below) && Valid(layers)
    ensures IsU8(Composite(below, layers))
    ensures var error := Exact(below as real, layers) - Composite(below, layers) as real;
            0.0 <= error && (if layers == [] then error == 0.0 else error < |layers| as real)
  {
    CompositeFits(below, layers);
    if layers != [] {
      var front := layers[..|layers| - 1];
      CompositeError(below, front);
      CompositeStep(below, layers);
    }
  }

  lemma CompositeStep(below: int, layers: seq<Layer>)
    requires IsU8(below) && Valid(layers) && layers != []
    requires var front := layers[..|layers| - 1];
             0.0 <= Exact(below as real, front) - Composite(below, front) as real <= |front| as real
    ensures 0.0 <= Exact(below as real, layers) - Composite(below, layers) as real < |layers| as real
  {
    var front := layers[..|layers| - 1];
    CompositeFits(below, front);
    LayerError(Composite(below, front), Exact(below as real, front), layers[|layers| - 1], |front| as real);
  }
}
