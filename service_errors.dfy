/** The exceptions the showtimes service throws, one constructor per distinct message, and the
    two errors of the seat collection's insertMany that it lets through: the schema's
    validation error and the unique index's duplicate-key error. */
module ServiceErrors {

  datatype ServiceError =
    | RoomNotFound        // NotFoundException('Room not found')
    | LayoutNotFound      // NotFoundException('Room layout not found')
    | ShowtimeNotFound    // NotFoundException('Showtime not found')
    | SeatsUnavailable    // BadRequestException('Some seats are not available')
    | SeatsNotBookable    // BadRequestException('Some seats are not available for booking')
    | ValidationFailed    // the validation error insertMany raises when a required field is empty
    | DuplicateKey        // the write error the unique seat index raises on insertMany
}
