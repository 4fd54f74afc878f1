/**
  The records the catalog returns, as plain values. They are produced by JSON
  deserialisation (not part of this model) and never change afterwards. The
  `size: f64` fields are not modelled: nothing in the migration reads them.
 */
module Assets {
  import opened Numerics

  /** One resized variant of an image (`thumbnail` or `small`). */
  datatype Format = Format(
    ext: string,
    url: string,
    hash: string,
    mime: string,
    name: string,
    path: string,
    width: i32,
    height: i32)

  datatype Formats = Formats(small: Format, thumbnail: Format)

  /** One media asset of the catalog. */
  datatype Image = Image(
    id: i32,
    name: string,
    alternativeText: Option<string>,
    caption: Option<string>,
    width: i32,
    height: i32,
    formats: Formats,
    hash: string,
    ext: string,
    mime: string,
    url: string,
    previewUrl: Option<string>,
    provider: string,
    providerMetadata: Option<string>,
    createdAt: string,
    updatedAt: string,
    blurhash: string,
    placeholder: string)
}
