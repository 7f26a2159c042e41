/** The two constants of the packer: the capacity of a package and the separator of the rendering. */
module Constants {

  /** Capacity of every package. */
  const MAX_SIZE: int := 10

  /** Separator placed between two rendered packages. */
  const DELIMITER: string := "/"
}
