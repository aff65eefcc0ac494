/** Results of file system operations. */
module FileErrors {
  datatype FSError = SUCCESS | NOT_FOUND | INVALID_PATH | NOT_A_DIRECTORY | NOT_A_FILE | END_OF_DIRECTORY
    | INVALID_FILESYSTEM | ALREADY_EXISTS | DISK_FULL | END_OF_CHAIN | NOT_IMPLEMENTED
}
