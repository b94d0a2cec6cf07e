/** The integers that JavaScript numbers carry exactly. */
module Numbers {
  const MAX_SAFE_INTEGER: nat := 0x1F_FFFF_FFFF_FFFF
}
