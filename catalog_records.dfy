/** The records the seat initialiser and the pricing query look up: rooms, room layouts and
    showtimes. They belong to catalog management and are read, never written, here. */
module CatalogRecords {
  import opened SeatSchema
  import opened PricingDto

  /** One entry of a layout row: a seat number and a free-form type. */
  datatype LayoutSeat = LayoutSeat(number: string, kind: string)

  datatype LayoutRow = LayoutRow(row: string, seats: seq<LayoutSeat>)

  /** A room layout's seat template, already parsed from its stored text. */
  type Layout = seq<LayoutRow>

  datatype Room = Room(roomLayout: ObjectId)

  datatype RoomLayout = RoomLayout(seatLayout: Layout)

  datatype Showtime = Showtime(room: ObjectId, pricing: Pricing)

  /** The rooms, roomlayouts and showtimes collections, as partial maps from id to record. */
  datatype Catalog = Catalog(
    rooms: map<ObjectId, Room>,
    roomLayouts: map<ObjectId, RoomLayout>,
    showtimes: map<ShowtimeId, Showtime>)
}
