/** Images as the layout nodes see them: only their size matters to the placement logic. */
module Images {

  /** A picture of `width` by `height` pixels (`PIL.Image.size`). */
  datatype Picture = Picture(width: nat, height: nat)
}
