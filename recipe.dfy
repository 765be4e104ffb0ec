/** The recipe record of app.go and the decoding step the document cursor offers. */
module Recipe {

  /** A value or the error that stopped it being produced. */
  datatype Result<T, E> = Ok(value: T) | Err(error: E)

  /**
   * One recipe as stored in the collection (the Go struct SingleRecipe).
   * The store-assigned object id is opaque; it is kept as its raw bytes.
   */
  datatype SingleRecipe = SingleRecipe(
    id: seq<bv8>,
    name: string,
    ingredients: seq<string>,
    recipe: seq<string>,
    category: seq<string>,
    healthy: int,
    time: int,
    notes: string)

  /**
   * A document as the cursor yields it, before decoding: either it has the
   * shape of a SingleRecipe, or the driver's decoder rejects it for a reason.
   */
  datatype Document = Wellformed(fields: SingleRecipe) | Malformed(reason: string)

  /** cursor.Decode: a well-formed document decodes to its recipe, any other fails. */
  function Decode(d: Document): Result<SingleRecipe, string>
  {
    match d
    case Wellformed(r) => Ok(r)
    case Malformed(why) => Err(why)
  }
}
