/** Constants of src/pager/constants.h that several modules share. */
module Constants {

  const MAX_PAGES := 65535
  const FREE_PAGE_LIST_SIZE := 32
}
