/** The exceptions the modelled core can raise, and a Result type carrying them. */
module Results {

  /** The three ValueErrors raised by the deed-handling code of scraper.py. */
  datatype Fault =
    | BadBookNumber(token: string)          // int(book_page[1:]) raised (Charleston filter)
    | NoSpaceInToken(token: string)         // bp.index(" ") raised (Charleston split)
    | NotTwoParts(token: string, parts: nat) // `book, page = bp.split()` did not unpack (Berkeley split)

  datatype Option<+T> = None | Some(value: T)

  datatype Result<+T> = Ok(value: T) | Err(error: Fault)
}
