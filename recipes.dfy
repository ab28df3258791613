/** The records the application passes around. */
module Recipes {

  datatype Option<T> = None | Some(value: T)

  /** A recipe summary as the ingredient search returns it: its identifier,
      its title, and its image address when the response carries one. The
      used and missing ingredient lists are only displayed, so they are not
      part of the record here. */
  datatype Recipe = Recipe(id: int, title: string, image: Option<string>)
}
