/**
 * The tile entity of the board. A cookie is an object: its identity is its
 * reference, its board coordinates are mutable and its type is fixed when it
 * is created.
 */
module Cookies {

  /** The closed palette of cookie kinds; the board treats it as opaque. */
  datatype CookieType = Croissant | Cupcake | Danish | Donut | Macaroon | SugarCookie

  class Cookie {
    var column: int
    var row: int
    const cookieType: CookieType

    constructor (column: int, row: int, cookieType: CookieType)
      ensures this.column == column && this.row == row && this.cookieType == cookieType
    {
      this.column := column;
      this.row := row;
      this.cookieType := cookieType;
    }
  }
}
