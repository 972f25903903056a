/**
 * The record kept in the favorites list: a generated recipe plus the
 * identifier the interface assigns to it. Only `id` and `title` influence
 * the favorites store; the other fields are carried along unchanged.
 */
module Recipes {
  datatype Recipe = Recipe(
    id: string,
    title: string,
    ingredients: seq<string>,
    steps: seq<string>
  )
}
